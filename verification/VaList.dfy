/** Variadic calls (include/stdarg.h:126-282): arguments staged by the caller
    (src/codegen_expr.c:3101-3279), spilled by ENT3 (src/ops.c:1045-1088), and walked
    by va_arg across the register and stack areas. Addresses count 8-byte words. */
module VaList {
  import opened Common

  const NumRegs: nat := 8

  /** An argument as the 64 bits that travel, and whether its type is floating. */
  datatype Arg = Arg(bits: int, isFloat: bool)

  /** Only a floating fixed parameter travels in a float register. */
  predicate InFloatReg(args: seq<Arg>, fixed: nat, i: nat)
    requires i < |args|
  {
    i < fixed && args[i].isFloat
  }

  /** How many of the first i arguments travel in float registers. */
  function Floats(args: seq<Arg>, fixed: nat, i: nat): (n: nat)
    requires i <= |args|
    ensures n <= i
  {
    if i == 0 then 0 else Floats(args, fixed, i - 1) + if InFloatReg(args, fixed, i - 1) then 1 else 0
  }

  /** Argument i is in its register. */
  ghost predicate InPlace(args: seq<Arg>, fixed: nat, i: nat, regs: seq<int>, fregs: seq<int>)
    requires i < |args| && i < NumRegs == |regs| == |fregs|
  {
    if InFloatReg(args, fixed, i) then fregs[Floats(args, fixed, i)] == args[i].bits
    else regs[i - Floats(args, fixed, i)] == args[i].bits
  }

  /** The first n arguments are in their registers. */
  ghost predicate Staged(args: seq<Arg>, fixed: nat, n: nat, regs: seq<int>, fregs: seq<int>) {
    && n <= |args| && |regs| == |fregs| == NumRegs && n <= NumRegs
    && forall i :: 0 <= i < n ==> InPlace(args, fixed, i, regs, fregs)
  }

  predicate Has(mem: map<int, int>, at: int, v: int) {
    at in mem && mem[at] == v
  }

  /** The arguments from 8 on are on the stack, the eighth at sp. */
  ghost predicate Pushed(args: seq<Arg>, from: nat, sp: int, mem: map<int, int>) {
    forall j {:trigger args[j]} :: from <= j < |args| ==> Has(mem, sp + (j - from), args[j].bits)
  }

  /** A frame's parameter slot i: one lower with canaries. */
  function Slot(bp: int, i: int, canaries: bool): int {
    bp - 1 - i - if canaries then 1 else 0
  }

  /** Slots 0..n of the frame hold the first n arguments. */
  ghost predicate Spilled(args: seq<Arg>, n: nat, bp: int, canaries: bool, mem: map<int, int>) {
    forall i {:trigger args[i]} :: 0 <= i < n && i < |args| ==> Has(mem, Slot(bp, i, canaries), args[i].bits)
  }

  lemma {:induction false} FloatsMonotone(args: seq<Arg>, fixed: nat, i: nat, j: nat)
    requires i <= j <= |args|
    ensures Floats(args, fixed, i) <= Floats(args, fixed, j) <= Floats(args, fixed, i) + (j - i)
    decreases j
  {
    if i < j { FloatsMonotone(args, fixed, i, j - 1); }
  }

  lemma FloatsBefore(args: seq<Arg>, fixed: nat, i: nat, j: nat)
    requires i < j <= |args|
    ensures InFloatReg(args, fixed, i) ==> Floats(args, fixed, i) < Floats(args, fixed, j)
    ensures !InFloatReg(args, fixed, i) ==> i - Floats(args, fixed, i) < j - Floats(args, fixed, j)
  {
    FloatsMonotone(args, fixed, i + 1, j);
  }

  /** Staging argument n writes a register no earlier argument is in. */
  ghost predicate StagesNext(args: seq<Arg>, fixed: nat, n: nat, regs: seq<int>, fregs: seq<int>, regs': seq<int>,
                             fregs': seq<int>)
    requires n < |args| && n < NumRegs == |regs| == |fregs|
  {
    var f := Floats(args, fixed, n);
    if InFloatReg(args, fixed, n) then regs' == regs && fregs' == fregs[f := args[n].bits]
    else fregs' == fregs && regs' == regs[n - f := args[n].bits]
  }

  lemma StaysInPlace(args: seq<Arg>, fixed: nat, i: nat, n: nat, regs: seq<int>, fregs: seq<int>, regs': seq<int>,
                     fregs': seq<int>)
    requires i < n < |args| && n < NumRegs == |regs| == |fregs| && InPlace(args, fixed, i, regs, fregs)
    requires StagesNext(args, fixed, n, regs, fregs, regs', fregs')
    ensures |regs'| == |fregs'| == NumRegs && InPlace(args, fixed, i, regs', fregs')
  {
    FloatsBefore(args, fixed, i, n);
  }

  lemma StagedMore(args: seq<Arg>, fixed: nat, n: nat, regs: seq<int>, fregs: seq<int>, regs': seq<int>,
                   fregs': seq<int>)
    requires n < |args| && n < NumRegs && Staged(args, fixed, n, regs, fregs)
    requires StagesNext(args, fixed, n, regs, fregs, regs', fregs')
    ensures Staged(args, fixed, n + 1, regs', fregs')
  {
    forall i | 0 <= i < n ensures InPlace(args, fixed, i, regs', fregs') {
      StaysInPlace(args, fixed, i, n, regs, fregs, regs', fregs');
    }
  }

  lemma PushedMore(args: seq<Arg>, j: nat, sp: int, mem: map<int, int>)
    requires 0 < j <= |args| && Pushed(args, j, sp, mem)
    ensures Pushed(args, j - 1, sp - 1, mem[sp - 1 := args[j - 1].bits])
  {
    var mem' := mem[sp - 1 := args[j - 1].bits];
    forall k | j - 1 <= k < |args| ensures Has(mem', sp - 1 + (k - (j - 1)), args[k].bits) {
      if k >= j { assert Has(mem, sp + (k - j), args[k].bits); }
    }
  }

  lemma SpilledMore(args: seq<Arg>, i: nat, bp: int, canaries: bool, mem: map<int, int>, w: int)
    requires Spilled(args, i, bp, canaries, mem) && (i < |args| ==> w == args[i].bits)
    ensures Spilled(args, i + 1, bp, canaries, mem[Slot(bp, i, canaries) := w])
  {
    var mem' := mem[Slot(bp, i, canaries) := w];
    forall k | 0 <= k < i + 1 && k < |args| ensures Has(mem', Slot(bp, k, canaries), args[k].bits) {
      if k < i { assert Has(mem, Slot(bp, k, canaries), args[k].bits); }
    }
  }

  /** A fixed floating argument is in a float register, any other in an integer register. */
  lemma StagedRegisters(args: seq<Arg>, fixed: nat, n: nat, regs: seq<int>, fregs: seq<int>, i: nat)
    requires Staged(args, fixed, n, regs, fregs) && i < n
    ensures args[i].isFloat && i < fixed ==> args[i].bits in fregs[..i + 1]
    ensures !args[i].isFloat || fixed <= i ==> args[i].bits in regs[..i + 1]
  {
    assert InPlace(args, fixed, i, regs, fregs);
    var f := Floats(args, fixed, i);
    if InFloatReg(args, fixed, i) {
      assert fregs[..i + 1][f] == args[i].bits;
    } else {
      assert regs[..i + 1][i - f] == args[i].bits;
    }
  }

  /** Writing below the pushed arguments leaves them. */
  lemma PushedKept(args: seq<Arg>, bp: int, mem: map<int, int>, at: int, w: int)
    requires Pushed(args, NumRegs, bp + 2, mem) && at < bp + 2
    ensures Pushed(args, NumRegs, bp + 2, mem[at := w])
  {
    forall k | NumRegs <= k < |args| ensures Has(mem[at := w], bp + 2 + (k - NumRegs), args[k].bits) {
      assert Has(mem, bp + 2 + (k - NumRegs), args[k].bits);
    }
  }

  class Vm {
    var mem: map<int, int>
    var regs: seq<int>
    var fregs: seq<int>

    constructor ()
      ensures |regs| == |fregs| == NumRegs && mem == map[]
    {
      mem := map[];
      regs, fregs := seq(NumRegs, _ => 0), seq(NumRegs, _ => 0);
    }

    /** Overflow arguments are pushed from the last to the eighth. */
    method PushArgs(args: seq<Arg>, sp: int) returns (sp': int)
      modifies this`mem
      ensures sp' == sp - (|args| - Min(NumRegs, |args|)) && Pushed(args, NumRegs, sp', mem)
    {
      sp' := sp;
      var j := |args|;
      while j > NumRegs
        invariant Min(NumRegs, |args|) <= j <= |args| && sp' == sp - (|args| - j) && Pushed(args, j, sp', mem)
      {
        PushedMore(args, j, sp', mem);
        j := j - 1;
        sp' := sp' - 1;
        mem := mem[sp' := args[j].bits];
      }
    }

    /** The first eight arguments go to the integer and float registers in turn. */
    method StageArgs(args: seq<Arg>, fixed: nat)
      requires |regs| == |fregs| == NumRegs
      modifies this`regs, this`fregs
      ensures Staged(args, fixed, Min(NumRegs, |args|), regs, fregs)
    {
      var intIdx, floatIdx := 0, 0;
      for i := 0 to Min(NumRegs, |args|)
        invariant Staged(args, fixed, i, regs, fregs)
        invariant floatIdx == Floats(args, fixed, i) && intIdx == i - floatIdx
      {
        ghost var r, f := regs, fregs;
        if args[i].isFloat && i < fixed {
          fregs := fregs[floatIdx := args[i].bits];
          floatIdx := floatIdx + 1;
        } else {
          regs := regs[intIdx := args[i].bits];
          intIdx := intIdx + 1;
        }
        StagedMore(args, fixed, i, r, f, regs, fregs);
      }
    }

    /** The word ENT3 copies into slot i, and the registers used up so far. */
    method TakeParam(args: seq<Arg>, fixed: nat, i: nat, bp: int, intIdx: nat, floatIdx: nat)
      returns (w: int, intIdx': nat, floatIdx': nat)
      requires Staged(args, fixed, Min(NumRegs, |args|), regs, fregs) && Pushed(args, NumRegs, bp + 2, mem)
      requires fixed <= |args| && (i >= NumRegs ==> i < fixed) && Taken(args, fixed, i, intIdx, floatIdx)
      ensures i < |args| ==> w == args[i].bits
      ensures Taken(args, fixed, i + 1, intIdx', floatIdx')
    {
      intIdx', floatIdx' := intIdx, floatIdx;
      assert i < NumRegs && i < |args| ==> InPlace(args, fixed, i, regs, fregs);
      if i >= NumRegs {
        assert Has(mem, bp + 2 + (i - NumRegs), args[i].bits);
        w := mem[bp + 2 + (i - NumRegs)];
      } else if i < fixed && args[i].isFloat {
        assert InFloatReg(args, fixed, i);
        w := fregs[floatIdx];
        floatIdx' := floatIdx + 1;
      } else {
        w := regs[intIdx];
        intIdx' := intIdx + 1;
      }
    }

    /** ENT3 in a variadic function: the frame at bp gets at least eight slots. */
    method Enter(args: seq<Arg>, fixed: nat, bp: int, saved: int, canaries: bool, canary: int)
      requires Staged(args, fixed, Min(NumRegs, |args|), regs, fregs) && Pushed(args, NumRegs, bp + 2, mem)
      requires fixed <= |args|
      modifies this`mem
      ensures Spilled(args, if fixed < NumRegs then NumRegs else fixed, bp, canaries, mem)
      ensures Pushed(args, NumRegs, bp + 2, mem)
      ensures Has(mem, bp, saved) && (canaries ==> Has(mem, bp - 1, canary))
    {
      PushedKept(args, bp, mem, bp, saved);
      mem := mem[bp := saved];
      if canaries {
        PushedKept(args, bp, mem, bp - 1, canary);
        mem := mem[bp - 1 := canary];
      }
      var spill := if fixed < NumRegs then NumRegs else fixed;
      var intIdx, floatIdx := 0, 0;
      for i := 0 to spill
        invariant Spilled(args, i, bp, canaries, mem) && Pushed(args, NumRegs, bp + 2, mem)
        invariant Taken(args, fixed, i, intIdx, floatIdx)
        invariant Has(mem, bp, saved) && (canaries ==> Has(mem, bp - 1, canary))
      {
        var w: int;
        w, intIdx, floatIdx := TakeParam(args, fixed, i, bp, intIdx, floatIdx);
        SpilledMore(args, i, bp, canaries, mem, w);
        PushedKept(args, bp, mem, Slot(bp, i, canaries), w);
        mem := mem[Slot(bp, i, canaries) := w];
      }
    }
  }

  /** The register indices after i parameters. */
  ghost predicate Taken(args: seq<Arg>, fixed: nat, i: nat, intIdx: nat, floatIdx: nat) {
    && intIdx + floatIdx == Min(i, NumRegs)
    && (i <= |args| && i <= NumRegs ==> floatIdx == Floats(args, fixed, i))
  }

  // ---------- walking the arguments ----------

  /** Where a list stands after k arguments. */
  ghost predicate Stands(regPtr: int, stackPtr: int, regCount: int, bp: int, fixed: nat, canaries: bool, k: nat) {
    var inRegs := if fixed < NumRegs then NumRegs - fixed else 0;
    if k < inRegs then
      regCount == inRegs - k && regPtr == Slot(bp, fixed + k, canaries) && stackPtr == bp + 2
    else
      regCount == 0 && stackPtr == bp + 2 + (fixed + k - NumRegs)
  }

  class VaList {
    var regPtr: int
    var stackPtr: int
    var regCount: int

    /** va_start with the address of the last fixed parameter. */
    method Start(bp: int, last: int, canaries: bool, ghost fixed: nat)
      requires fixed >= 1 && last == Slot(bp, fixed - 1, canaries)
      modifies this
      ensures Stands(regPtr, stackPtr, regCount, bp, fixed, canaries, 0)
    {
      regPtr := last - 1;
      var paramSlot := bp - last;
      if canaries { paramSlot := paramSlot - 1; }
      regCount := 8 - paramSlot;
      if regCount < 0 { regCount := 0; }
      var stackFixed := if paramSlot > 8 then paramSlot - 8 else 0;
      stackPtr := bp + 2 + stackFixed;
    }

    /** va_arg: the k-th call reads the k-th variadic argument. */
    method Next(mem: map<int, int>, ghost args: seq<Arg>, ghost fixed: nat, ghost bp: int, ghost canaries: bool,
                ghost k: nat)
      returns (w: int)
      requires Stands(regPtr, stackPtr, regCount, bp, fixed, canaries, k) && fixed + k < |args|
      requires Spilled(args, if fixed < NumRegs then NumRegs else fixed, bp, canaries, mem)
      requires Pushed(args, NumRegs, bp + 2, mem)
      modifies this
      ensures w == args[fixed + k].bits
      ensures Stands(regPtr, stackPtr, regCount, bp, fixed, canaries, k + 1)
    {
      ghost var i := fixed + k;
      if regCount > 0 {
        assert Has(mem, Slot(bp, i, canaries), args[i].bits);
        regCount := regCount - 1;
        regPtr := regPtr - 1;
        w := mem[regPtr + 1];
      } else {
        assert Has(mem, bp + 2 + (i - NumRegs), args[i].bits);
        stackPtr := stackPtr + 1;
        w := mem[stackPtr - 1];
      }
    }

    /** va_copy. */
    method Copy(from: VaList)
      modifies this
      ensures regPtr == old(from.regPtr) && stackPtr == old(from.stackPtr) && regCount == old(from.regCount)
    {
      regPtr, stackPtr, regCount := from.regPtr, from.stackPtr, from.regCount;
    }
  }

  /** A whole variadic call, and a callee that reads everything behind its last fixed
      parameter, going over to a copy of its list after m of them. */
  method CallAndRead(args: seq<Arg>, fixed: nat, canaries: bool, canary: int, sp: int, m: nat) returns (read: seq<int>)
    requires 1 <= fixed <= |args|
    ensures |read| == |args| - fixed && forall k :: 0 <= k < |read| ==> read[k] == args[fixed + k].bits
  {
    var vm := new Vm();
    var top := vm.PushArgs(args, sp);
    vm.StageArgs(args, fixed);
    var bp := top - 2;
    vm.Enter(args, fixed, bp, sp, canaries, canary);
    var mem := vm.mem;
    var ap := new VaList;
    ap.Start(bp, Slot(bp, fixed - 1, canaries), canaries, fixed);
    read := [];
    for k := 0 to |args| - fixed
      invariant |read| == k && forall i :: 0 <= i < k ==> read[i] == args[fixed + i].bits
      invariant Stands(ap.regPtr, ap.stackPtr, ap.regCount, bp, fixed, canaries, k) && fresh(ap)
    {
      if k == m {
        var copy := new VaList;
        copy.Copy(ap);
        ap := copy;
      }
      var w := ap.Next(mem, args, fixed, bp, canaries, k);
      read := read + [w];
    }
  }
}
