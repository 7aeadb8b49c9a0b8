/** Access to a variable of an enclosing function (src/codegen_addr.c:546-687): the
    code that follows static links from frame to frame, or stops at a block and takes
    the variable from its descriptor, run on a machine with 64-bit words. */
module StaticChain {
  import Align
  import VaList
  import opened Common

  predicate Word(x: int) {
    0 <= x < Modulus
  }

  function Wrap(x: int): (r: int)
    ensures Word(r)
  {
    x % Modulus
  }

  // ---------- masking ----------

  function Pow2(n: nat): (r: nat)
    ensures r >= 1
  {
    if n == 0 then 1 else 2 * Pow2(n - 1)
  }

  /** Bitwise and. */
  function And(x: nat, y: nat): nat {
    if x == 0 || y == 0 then 0 else 2 * And(x / 2, y / 2) + (x % 2) * (y % 2)
  }

  lemma {:induction false} Pow2Le(j: nat, n: nat)
    requires j <= n
    ensures Pow2(j) <= Pow2(n)
    decreases n
  {
    if j < n { Pow2Le(j, n - 1); }
  }

  lemma {:induction false} AndOnes(x: nat, n: nat)
    requires x < Pow2(n)
    ensures And(x, Pow2(n) - 1) == x
    decreases n
  {
    if x > 0 {
      assert (Pow2(n) - 1) / 2 == Pow2(n - 1) - 1 && (Pow2(n) - 1) % 2 == 1;
      AndOnes(x / 2, n - 1);
    }
  }

  /** Clearing the low j bits of an n-bit word rounds down to a multiple of 2^j. */
  lemma {:induction false} AndMask(x: nat, n: nat, j: nat)
    requires x < Pow2(n) && j <= n
    ensures Pow2(n) >= Pow2(j) && And(x, Pow2(n) - Pow2(j)) == x / Pow2(j) * Pow2(j)
    decreases j
  {
    Pow2Le(j, n);
    if j == 0 {
      AndOnes(x, n);
      assert x / 1 == x;
    } else {
      var y := Pow2(n) - Pow2(j);
      Pow2Le(j - 1, n - 1);
      assert y == 2 * (Pow2(n - 1) - Pow2(j - 1));
      AndMask(x / 2, n - 1, j - 1);
      HalfRound(x, Pow2(j - 1));
      if y == 0 {
        assert Pow2(n) == Pow2(j);
        assert x / Pow2(j) == 0 by { SmallQuotient(x, Pow2(j)); }
      } else if x == 0 {
        assert 0 / Pow2(j) == 0;
      }
    }
  }

  lemma SmallQuotient(x: nat, p: nat)
    requires x < p
    ensures x / p == 0
  {
  }

  lemma HalfRound(x: nat, p: nat)
    requires p >= 1
    ensures x / (2 * p) * (2 * p) == 2 * (x / 2 / p * p)
  {
    var q, r := x / 2 / p, x / 2 % p;
    assert x / 2 == q * p + r;
    var r2 := 2 * r + x % 2;
    assert x == q * (2 * p) + r2 && 0 <= r2 < 2 * p;
    assert x == 2 * p * q + r2;
    Align.DivUnique(x, 2 * p, q, r2);
  }

  lemma {:induction false} Pow2Add(a: nat, b: nat)
    ensures Pow2(a + b) == Pow2(a) * Pow2(b)
  {
    if a > 0 { Pow2Add(a - 1, b); }
  }

  lemma ModulusIsPow2()
    ensures Modulus == Pow2(64)
  {
    assert Pow2(4) == 16;
    Pow2Add(4, 4);
    Pow2Add(8, 8);
    Pow2Add(16, 16);
    Pow2Add(32, 32);
  }

  /** Adding align - 1 and masking with -align, as the code does, rounds up. */
  lemma MaskRoundsUp(x: int, log: nat, align: int)
    requires Word(x) && log <= 64 && align == Pow2(log)
    ensures And(Wrap(x + (align - 1)), Wrap(-align)) == Wrap(Align.AlignUp(x, align))
  {
    ModulusIsPow2();
    Pow2Le(log, 64);
    var y := x + (align - 1);
    var w := Wrap(y);
    if log == 64 {
      assert Wrap(-align) == 0;
    } else {
      Pow2Less(log);
      assert Wrap(-align) == Modulus - align;
    }
    AndMask(w, 64, log);
    RoundWrapped(x, log, align);
  }

  lemma Pow2Less(log: nat)
    requires log < 64
    ensures Pow2(log) < Modulus
  {
    ModulusIsPow2();
    Pow2Le(log, 63);
    assert Pow2(64) == 2 * Pow2(63);
  }

  /** Rounding down after wrapping is rounding up before wrapping. */
  lemma RoundWrapped(x: int, log: nat, align: int)
    requires Word(x) && log <= 64 && align == Pow2(log)
    ensures Wrap(x + (align - 1)) / align * align == Wrap(Align.AlignUp(x, align))
  {
    ModulusIsPow2();
    Pow2Add(log, 64 - log);
    Align.AlignUpByDivision(x, align);
    DivideWrapped(x + (align - 1), align, Pow2(64 - log));
  }

  /** A multiple of align divides out of the wrap. */
  lemma DivideWrapped(y: int, align: int, k: int)
    requires align >= 1 && Modulus == align * k && 0 <= y < Modulus + align
    ensures Wrap(y) / align * align == Wrap(y / align * align)
  {
    if y < Modulus {
      QuotientBelow(y, align);
    } else {
      Align.DivUnique(y, align, k, y - Modulus);
      SmallQuotient(y - Modulus, align);
      assert y / align * align == Modulus;
    }
  }

  lemma QuotientBelow(y: int, align: int)
    requires align >= 1 && y >= 0
    ensures 0 <= y / align * align <= y
  {
    assert y == align * (y / align) + y % align;
  }

  // ---------- the machine ----------

  const RegZero: nat := 0

  datatype Instr =
    | Lea(rd: nat, slot: int)
    | Load(rd: nat, rs: nat)
    | AddI(rd: nat, rs: nat, imm: int)
    | AndI(rd: nat, rs: nat, imm: int)

  type Regs = map<nat, int>

  function Reg(regs: Regs, r: nat): int {
    if r in regs then regs[r] else 0
  }

  /** Writing the zero register has no effect. */
  function Set(regs: Regs, rd: nat, v: int): (r: Regs)
    ensures forall k :: k != rd ==> Reg(r, k) == Reg(regs, k)
    ensures rd != RegZero ==> Reg(r, rd) == v
  {
    if rd == RegZero then regs else regs[rd := v]
  }

  function Step(i: Instr, regs: Regs, bp: int, mem: int -> int): Regs {
    match i
    case Lea(rd, slot) => Set(regs, rd, Wrap(bp + 8 * slot))
    case Load(rd, rs) => Set(regs, rd, mem(Reg(regs, rs)))
    case AddI(rd, rs, imm) => Set(regs, rd, Wrap(Reg(regs, rs) + imm))
    case AndI(rd, rs, imm) => Set(regs, rd, And(Wrap(Reg(regs, rs)), Wrap(imm)))
  }

  function Run(code: seq<Instr>, regs: Regs, bp: int, mem: int -> int): Regs {
    if code == [] then regs else Run(code[1..], Step(code[0], regs, bp, mem), bp, mem)
  }

  lemma {:induction false} RunAppend(a: seq<Instr>, b: seq<Instr>, regs: Regs, bp: int, mem: int -> int)
    ensures Run(a + b, regs, bp, mem) == Run(b, Run(a, regs, bp, mem), bp, mem)
    decreases |a|
  {
    if a == [] {
      assert a + b == b;
    } else {
      assert (a + b)[1..] == a[1..] + b;
      RunAppend(a[1..], b, Step(a[0], regs, bp, mem), bp, mem);
    }
  }

  // ---------- functions, blocks and their descriptors ----------

  datatype Var = Var(id: nat, slot: int, alignLog: nat, boxed: bool, vla: bool, size: nat, align: nat)

  /** A function or block, with the variables its descriptor captures. */
  datatype Fn = Fn(id: nat, isBlock: bool, captures: seq<Var>)

  /** The slot of a frame's own static link: one lower with canaries. */
  function LinkSlot(canaries: bool): int {
    if canaries then -2 else -1
  }

  /** static_link_hop_bytes. */
  function HopBytes(canaries: bool): int {
    -(1 + if canaries then 1 else 0) * 8
  }

  function SlotSize(v: Var): nat {
    if v.boxed || v.vla then 8 else Align.AlignUp(v.size, 8)
  }

  function SlotAlign(v: Var): (r: nat)
    ensures r >= 8
  {
    if v.boxed || v.vla || v.align < 8 then 8 else v.align
  }

  /** The end of a slot laid out behind off. */
  function NextSlot(off: nat, align: nat, size: nat): (r: nat)
    requires align >= 8
    ensures r >= off + size
  {
    Align.AlignUp(off, align) + size
  }

  lemma NextSlotOn8(off: nat, align: nat, size: nat)
    requires align >= 8 && align % 8 == 0 && size % 8 == 0
    ensures NextSlot(off, align, size) % 8 == 0
  {
    AlignUpOn8(off, align);
  }

  lemma AlignUpOn8(off: nat, align: nat)
    requires align > 0 && align % 8 == 0
    ensures Align.AlignUp(off, align) % 8 == 0
  {
    Align.AlignUpMultiple(off, align);
    MultipleOf8(Align.AlignUp(off, align), align);
  }

  /** cc_block_capture_offset: where the slot after those of caps starts. */
  function CaptureOffset(caps: seq<Var>): (r: nat) {
    if caps == [] then 16
    else
      var n := |caps| - 1;
      NextSlot(CaptureOffset(caps[..n]), SlotAlign(caps[n]), SlotSize(caps[n]))
  }

  /** Capture slots lie right behind the two header words, on 8-byte boundaries, one after
      the other without overlap, and no further apart than the alignment asks for. */
  lemma {:induction false} CaptureSlots(caps: seq<Var>, i: nat)
    requires i <= |caps| && Captured(caps)
    ensures CaptureOffset(caps[..i]) >= 16 && CaptureOffset(caps[..i]) % 8 == 0
    ensures i == 0 ==> CaptureOffset(caps[..i]) == 16
    ensures i < |caps| ==>
      var start, end := CaptureOffset(caps[..i]), CaptureOffset(caps[..i + 1]);
      start + SlotSize(caps[i]) <= end < start + SlotAlign(caps[i]) + SlotSize(caps[i])
    decreases i
  {
    if i > 0 {
      var p := caps[..i];
      assert p[..i - 1] == caps[..i - 1];
      CaptureSlots(caps, i - 1);
      SlotSizeOn8(caps[i - 1]);
      NextSlotOn8(CaptureOffset(caps[..i - 1]), SlotAlign(caps[i - 1]), SlotSize(caps[i - 1]));
    }
    if i < |caps| {
      assert caps[..i + 1][..i] == caps[..i];
    }
  }

  /** A slot holds the variable, in whole words; of a boxed variable or a variable-length
      array it holds one pointer. */
  lemma SlotFits(v: Var)
    ensures v.boxed || v.vla ==> SlotSize(v) == 8 && SlotAlign(v) == 8
    ensures !v.boxed && !v.vla ==> v.size <= SlotSize(v) < v.size + 8
    ensures !v.boxed && !v.vla ==> SlotAlign(v) >= v.align && (SlotAlign(v) == 8 || SlotAlign(v) == v.align)
    ensures SlotSize(v) % 8 == 0
  {
    SlotSizeOn8(v);
  }

  lemma SlotSizeOn8(v: Var)
    ensures SlotSize(v) % 8 == 0
  {
    Align.AlignUpMultiple(v.size, 8);
  }

  lemma MultipleOf8(x: nat, a: nat)
    requires a > 0 && a % 8 == 0 && x % a == 0
    ensures x % 8 == 0
  {
    var q, b := x / a, a / 8;
    assert x == 8 * b * q;
    assert x == 8 * (b * q);
  }

  /** Captures with alignments the compiler gives them: powers of two, so multiples of 8
      once they exceed it. */
  ghost predicate Captured(caps: seq<Var>) {
    forall k :: 0 <= k < |caps| ==> SlotAlign(caps[k]) % 8 == 0
  }

  /** A capture's slot starts at its alignment, whatever was captured before it. */
  ghost predicate AlwaysAligned(v: Var) {
    forall caps: seq<Var> {:trigger CaptureOffset(caps)} :: Captured(caps) ==> CaptureOffset(caps) % SlotAlign(v) == 0
  }

  /** The layout's own comment has every slot start at its alignment; the offset is
      only rounded for the slots before it. So exactly the captures that need no more than
      8 bytes are aligned behind every list of captures. */
  lemma CaptureAlignedIff(v: Var, log: nat)
    requires SlotAlign(v) == Pow2(log)
    ensures AlwaysAligned(v) <==> SlotAlign(v) == 8
  {
    if SlotAlign(v) == 8 {
      forall caps: seq<Var> | Captured(caps) ensures CaptureOffset(caps) % 8 == 0 {
        CaptureSlots(caps, |caps|);
        assert caps[..|caps|] == caps;
      }
    } else {
      var word := Var(0, 0, 0, false, false, 8, 8);
      WordSlot(word);
      FirstCapture(word, 24);
      assert Captured([word]);
      Not24(log);
    }
  }

  /** No power of two above 8 divides 24. */
  lemma Not24(log: nat)
    requires Pow2(log) > 8
    ensures 24 % Pow2(log) != 0
  {
    assert Pow2(3) == 8 && Pow2(4) == 16 && Pow2(5) == 32;
    if log <= 3 {
      Pow2Le(log, 3);
    } else if log >= 5 {
      Pow2Le(5, log);
      SmallQuotient(24, Pow2(log));
    }
  }

  lemma FirstCapture(v: Var, end: nat)
    requires NextSlot(16, SlotAlign(v), SlotSize(v)) == end
    ensures CaptureOffset([v]) == end
  {
    var caps := [v];
    assert caps[..0] == [] && caps[0] == v;
  }

  lemma WordSlot(word: Var)
    requires word.size == 8 && word.align == 8
    ensures SlotAlign(word) == 8 && SlotSize(word) == 8 && NextSlot(16, SlotAlign(word), SlotSize(word)) == 24
  {
    Align.AlignUpIs(8, 8, 8);
    Align.AlignUpIs(16, 8, 16);
  }

  // ---------- the chase ----------

  /** Where a function captures v. */
  function CaptureIndex(caps: seq<Var>, v: Var): (r: Option<nat>)
    ensures r.Some? ==> r.value < |caps| && caps[r.value].id == v.id
                        && forall k :: 0 <= k < r.value ==> caps[k].id != v.id
    ensures r.None? ==> forall k :: 0 <= k < |caps| ==> caps[k].id != v.id
  {
    if caps == [] then None
    else if caps[0].id == v.id then Some(0)
    else match CaptureIndex(caps[1..], v)
      case None =>
        assert forall k :: 0 < k < |caps| ==> caps[k] == caps[1..][k - 1];
        None
      case Some(i) =>
        assert forall k :: 0 < k < |caps| ==> caps[k] == caps[1..][k - 1];
        Some(i + 1)
  }

  function HopCode(dest: nat, canaries: bool): seq<Instr> {
    [AddI(dest, dest, HopBytes(canaries)), Load(dest, dest)]
  }

  function CaptureCode(v: Var, dest: nat, canaries: bool, offset: nat): seq<Instr> {
    HopCode(dest, canaries) + [AddI(dest, dest, offset)] + if v.boxed then [Load(dest, dest)] else []
  }

  function OwnerCode(v: Var, dest: nat): seq<Instr> {
    var align: int := Pow2(3 + v.alignLog);
    [AddI(dest, dest, v.slot * 8)]
    + if v.alignLog == 0 then [] else [AddI(dest, dest, align - 1), AndI(dest, dest, -align)]
  }

  /** The code from the point where dest holds the frame of up[i]; up[depth] owns v. */
  function ChaseFrom(up: seq<Fn>, i: nat, depth: nat, v: Var, dest: nat, canaries: bool): Option<seq<Instr>>
    requires i <= depth < |up|
    decreases depth - i
  {
    if i == depth then Some(OwnerCode(v, dest))
    else if up[i].isBlock then
      match CaptureIndex(up[i].captures, v)
      case None => None
      case Some(c) => Some(CaptureCode(v, dest, canaries, CaptureOffset(up[i].captures[..c])))
    else
      match ChaseFrom(up, i + 1, depth, v, dest, canaries)
      case None => None
      case Some(rest) => Some(HopCode(dest, canaries) + rest)
  }

  /** The words below bp, from the highest down. */
  ghost predicate Below(mem: int -> int, bp: int, words: seq<int>) {
    forall i :: 0 <= i < |words| ==> mem(Wrap(bp - 8 * (i + 1))) == words[i]
  }

  /** What ENT3 leaves in a frame (src/ops.c:1045-1088) whose hidden first parameter is
      link: the canary, if canaries are on, then the parameters in order. */
  ghost predicate Called(mem: int -> int, bp: int, canaries: bool, link: int) {
    exists canary: int, rest: seq<int> :: CalledWith(mem, bp, canaries, canary, link, rest)
  }

  ghost predicate CalledWith(mem: int -> int, bp: int, canaries: bool, canary: int, link: int, rest: seq<int>) {
    Below(mem, bp, (if canaries then [canary] else []) + [link] + rest)
  }

  /** The frames of a running chain of nested functions: up[0] is running and bps[i]
      is the frame of up[i]. A nested function is called with its parent's frame as its
      hidden first argument, a block with its own descriptor. */
  ghost predicate Linked(up: seq<Fn>, bps: seq<int>, descs: seq<int>, mem: int -> int, canaries: bool) {
    && |up| == |bps| == |descs|
    && (forall i :: 0 <= i < |up| ==> Word(bps[i]) && Word(descs[i]))
    && (forall i {:trigger bps[i]} :: 0 <= i < |up| - 1 ==>
          Called(mem, bps[i], canaries, if up[i].isBlock then descs[i] else bps[i + 1]))
  }

  /** So the static link is found where the hops and the first load look for it, which is
      the slot of parameter 0. */
  lemma LinkLies(mem: int -> int, bp: int, canaries: bool, link: int)
    requires Called(mem, bp, canaries, link)
    ensures mem(Wrap(bp + HopBytes(canaries))) == link && mem(Wrap(bp + 8 * LinkSlot(canaries))) == link
    ensures LinkSlot(canaries) == VaList.Slot(0, 0, canaries) && HopBytes(canaries) == 8 * VaList.Slot(0, 0, canaries)
  {
    var canary: int, rest: seq<int> :| CalledWith(mem, bp, canaries, canary, link, rest);
    var words := (if canaries then [canary] else []) + [link] + rest;
    var i := if canaries then 1 else 0;
    assert words[i] == link && mem(Wrap(bp - 8 * (i + 1))) == words[i];
  }

  /** The first block strictly between up[0] and the owner up[depth], or depth. */
  function FirstBlock(up: seq<Fn>, i: nat, depth: nat): (b: nat)
    requires i <= depth < |up|
    ensures i <= b <= depth && (b < depth ==> up[b].isBlock)
    ensures forall k :: i <= k < b ==> !up[k].isBlock
    decreases depth - i
  {
    if i == depth || up[i].isBlock then i else FirstBlock(up, i + 1, depth)
  }

  /** Where v lives: in the owner's frame, rounded up to its alignment, or in the first
      block's descriptor, for a boxed variable behind the pointer there. */
  ghost function Address(up: seq<Fn>, b: nat, depth: nat, v: Var, bps: seq<int>, descs: seq<int>, mem: int -> int): int
    requires b <= depth < |up| == |bps| == |descs| && (b < depth ==> CaptureIndex(up[b].captures, v).Some?)
  {
    if b == depth then
      var at := Wrap(bps[depth] + v.slot * 8);
      if v.alignLog == 0 then at else Wrap(Align.AlignUp(at, Pow2(3 + v.alignLog)))
    else
      var slot := Wrap(descs[b] + CaptureOffset(up[b].captures[..CaptureIndex(up[b].captures, v).value]));
      if v.boxed then mem(slot) else slot
  }

  lemma RunCons(i: Instr, rest: seq<Instr>, regs: Regs, bp: int, mem: int -> int)
    ensures Run([i] + rest, regs, bp, mem) == Run(rest, Step(i, regs, bp, mem), bp, mem)
  {
    assert ([i] + rest)[1..] == rest;
  }

  lemma RunTwo(i: Instr, j: Instr, regs: Regs, bp: int, mem: int -> int)
    ensures Run([i, j], regs, bp, mem) == Step(j, Step(i, regs, bp, mem), bp, mem)
  {
    assert [i, j] == [i] + [j] && [j] == [j] + [];
    RunCons(i, [j], regs, bp, mem);
    RunCons(j, [], Step(i, regs, bp, mem), bp, mem);
  }

  lemma RunHop(regs: Regs, dest: nat, canaries: bool, bp: int, mem: int -> int)
    requires dest != RegZero
    ensures var r := Run(HopCode(dest, canaries), regs, bp, mem);
            Reg(r, dest) == mem(Wrap(Reg(regs, dest) + HopBytes(canaries)))
            && forall k :: k != dest ==> Reg(r, k) == Reg(regs, k)
  {
    RunTwo(AddI(dest, dest, HopBytes(canaries)), Load(dest, dest), regs, bp, mem);
  }

  lemma RunOwner(regs: Regs, v: Var, dest: nat, bp: int, mem: int -> int)
    requires dest != RegZero && v.alignLog <= 61
    ensures var r := Run(OwnerCode(v, dest), regs, bp, mem);
            var at := Wrap(Reg(regs, dest) + v.slot * 8);
            Reg(r, dest) == (if v.alignLog == 0 then at else Wrap(Align.AlignUp(at, Pow2(3 + v.alignLog))))
            && forall k :: k != dest ==> Reg(r, k) == Reg(regs, k)
  {
    var first := AddI(dest, dest, v.slot * 8);
    var r1 := Step(first, regs, bp, mem);
    if v.alignLog == 0 {
      RunCons(first, [], regs, bp, mem);
    } else {
      var align: int := Pow2(3 + v.alignLog);
      RunCons(first, [AddI(dest, dest, align - 1), AndI(dest, dest, -align)], regs, bp, mem);
      RunAlign(r1, dest, 3 + v.alignLog, align, bp, mem);
    }
  }

  lemma RunAlign(regs: Regs, dest: nat, log: nat, align: int, bp: int, mem: int -> int)
    requires dest != RegZero && log <= 64 && align == Pow2(log) && Word(Reg(regs, dest))
    ensures var r := Run([AddI(dest, dest, align - 1), AndI(dest, dest, -align)], regs, bp, mem);
            Reg(r, dest) == Wrap(Align.AlignUp(Reg(regs, dest), align))
            && forall k :: k != dest ==> Reg(r, k) == Reg(regs, k)
  {
    RunTwo(AddI(dest, dest, align - 1), AndI(dest, dest, -align), regs, bp, mem);
    var at := Reg(regs, dest);
    MaskRoundsUp(at, log, align);
    WrapTwice(at + (align - 1));
  }

  lemma WrapTwice(x: int)
    ensures Wrap(Wrap(x)) == Wrap(x)
  {
  }

  lemma RunCapture(regs: Regs, v: Var, dest: nat, canaries: bool, offset: nat, bp: int, mem: int -> int)
    requires dest != RegZero
    ensures var r := Run(CaptureCode(v, dest, canaries, offset), regs, bp, mem);
            var slot := Wrap(mem(Wrap(Reg(regs, dest) + HopBytes(canaries))) + offset);
            Reg(r, dest) == (if v.boxed then mem(slot) else slot)
            && forall k :: k != dest ==> Reg(r, k) == Reg(regs, k)
  {
    var hop, add, load := HopCode(dest, canaries), AddI(dest, dest, offset), Load(dest, dest);
    var tail := [add] + if v.boxed then [load] else [];
    assert CaptureCode(v, dest, canaries, offset) == hop + tail;
    RunAppend(hop, tail, regs, bp, mem);
    RunHop(regs, dest, canaries, bp, mem);
    var r1 := Run(hop, regs, bp, mem);
    if v.boxed {
      assert tail == [add, load];
      RunTwo(add, load, r1, bp, mem);
    } else {
      RunCons(add, [], r1, bp, mem);
    }
  }

  /** code leaves value in dest and every other register as it was. */
  ghost predicate Computes(code: seq<Instr>, regs: Regs, bp: int, mem: int -> int, dest: nat, value: int) {
    var r := Run(code, regs, bp, mem);
    Reg(r, dest) == value && forall k :: k != dest ==> Reg(r, k) == Reg(regs, k)
  }

  lemma Then(a: seq<Instr>, b: seq<Instr>, regs: Regs, bp: int, mem: int -> int, dest: nat, mid: int, value: int)
    requires Computes(a, regs, bp, mem, dest, mid)
    requires Computes(b, Run(a, regs, bp, mem), bp, mem, dest, value)
    ensures Computes(a + b, regs, bp, mem, dest, value)
  {
    RunAppend(a, b, regs, bp, mem);
  }

  lemma AtBlock(
    up: seq<Fn>, i: nat, depth: nat, v: Var, dest: nat, canaries: bool,
    bps: seq<int>, descs: seq<int>, mem: int -> int, regs: Regs, bp: int)
    requires i < depth < |up| && up[i].isBlock && dest != RegZero && Linked(up, bps, descs, mem, canaries)
    requires Reg(regs, dest) == bps[i] && CaptureIndex(up[i].captures, v).Some?
    ensures ChaseFrom(up, i, depth, v, dest, canaries).Some?
    ensures Computes(ChaseFrom(up, i, depth, v, dest, canaries).value, regs, bp, mem, dest,
                     Address(up, i, depth, v, bps, descs, mem))
  {
    var off := CaptureOffset(up[i].captures[..CaptureIndex(up[i].captures, v).value]);
    LinkLies(mem, bps[i], canaries, descs[i]);
    RunCapture(regs, v, dest, canaries, off, bp, mem);
  }

  lemma AtOwner(
    up: seq<Fn>, depth: nat, v: Var, dest: nat, canaries: bool,
    bps: seq<int>, descs: seq<int>, mem: int -> int, regs: Regs, bp: int)
    requires depth < |up| == |bps| == |descs| && dest != RegZero && v.alignLog <= 61 && Reg(regs, dest) == bps[depth]
    ensures Computes(OwnerCode(v, dest), regs, bp, mem, dest, Address(up, depth, depth, v, bps, descs, mem))
  {
    RunOwner(regs, v, dest, bp, mem);
  }

  lemma AtNested(
    up: seq<Fn>, i: nat, dest: nat, canaries: bool,
    bps: seq<int>, descs: seq<int>, mem: int -> int, regs: Regs, bp: int) returns (regs': Regs)
    requires i + 1 < |up| && !up[i].isBlock && dest != RegZero && Linked(up, bps, descs, mem, canaries)
    requires Reg(regs, dest) == bps[i]
    ensures regs' == Run(HopCode(dest, canaries), regs, bp, mem) && Reg(regs', dest) == bps[i + 1]
    ensures Computes(HopCode(dest, canaries), regs, bp, mem, dest, bps[i + 1])
  {
    LinkLies(mem, bps[i], canaries, bps[i + 1]);
    RunHop(regs, dest, canaries, bp, mem);
    regs' := Run(HopCode(dest, canaries), regs, bp, mem);
  }

  /** From frame up[i] on, the chase computes the variable's address and touches no
      other register. */
  lemma {:induction false} ChaseRuns(
    up: seq<Fn>, i: nat, depth: nat, v: Var, dest: nat, canaries: bool,
    bps: seq<int>, descs: seq<int>, mem: int -> int, regs: Regs, bp: int, b: nat)
    requires i <= depth < |up| && dest != RegZero && v.alignLog <= 61 && Linked(up, bps, descs, mem, canaries)
    requires Reg(regs, dest) == bps[i] && ChaseFrom(up, i, depth, v, dest, canaries).Some?
    requires b == FirstBlock(up, i, depth)
    ensures b < depth ==> CaptureIndex(up[b].captures, v).Some?
    ensures Computes(ChaseFrom(up, i, depth, v, dest, canaries).value, regs, bp, mem, dest,
                     Address(up, b, depth, v, bps, descs, mem))
    decreases depth - i
  {
    if i == depth {
      AtOwner(up, depth, v, dest, canaries, bps, descs, mem, regs, bp);
    } else if up[i].isBlock {
      AtBlock(up, i, depth, v, dest, canaries, bps, descs, mem, regs, bp);
    } else {
      var rest := ChaseFrom(up, i + 1, depth, v, dest, canaries).value;
      var regs' := AtNested(up, i, dest, canaries, bps, descs, mem, regs, bp);
      ChaseRuns(up, i + 1, depth, v, dest, canaries, bps, descs, mem, regs', bp, b);
      Then(HopCode(dest, canaries), rest, regs, bp, mem, dest, bps[i + 1], Address(up, b, depth, v, bps, descs, mem));
    }
  }

  /** emit_static_chain_var_addr's code, when there is one. */
  function ChaseCode(up: seq<Fn>, depth: nat, v: Var, dest: nat, canaries: bool): Option<seq<Instr>>
    requires 1 <= depth < |up|
  {
    match ChaseFrom(up, 1, depth, v, dest, canaries)
    case None => None
    case Some(rest) => Some([Lea(dest, LinkSlot(canaries)), Load(dest, dest)] + rest)
  }

  /** For every nesting depth, canary setting and alignment: run in up[0]'s frame, the
      emitted code leaves the variable's address in dest and every other register as
      it was. */
  lemma ChaseCorrect(
    up: seq<Fn>, depth: nat, v: Var, dest: nat, canaries: bool,
    bps: seq<int>, descs: seq<int>, mem: int -> int, regs: Regs, b: nat)
    requires 1 <= depth < |up| && dest != RegZero && v.alignLog <= 61
    requires !up[0].isBlock && Linked(up, bps, descs, mem, canaries)
    requires ChaseCode(up, depth, v, dest, canaries).Some? && b == FirstBlock(up, 1, depth)
    ensures b < depth ==> CaptureIndex(up[b].captures, v).Some?
    ensures Computes(ChaseCode(up, depth, v, dest, canaries).value, regs, bps[0], mem, dest,
                     Address(up, b, depth, v, bps, descs, mem))
  {
    var head := [Lea(dest, LinkSlot(canaries)), Load(dest, dest)];
    var rest := ChaseFrom(up, 1, depth, v, dest, canaries).value;
    LinkLies(mem, bps[0], canaries, bps[1]);
    RunTwo(head[0], head[1], regs, bps[0], mem);
    assert Computes(head, regs, bps[0], mem, dest, bps[1]);
    ChaseRuns(up, 1, depth, v, dest, canaries, bps, descs, mem, Run(head, regs, bps[0], mem), bps[0], b);
    Then(head, rest, regs, bps[0], mem, dest, bps[1], Address(up, b, depth, v, bps, descs, mem));
  }

  /** There is no code exactly when the first block on the way does not capture v. */
  lemma {:induction false} ChaseFailsIff(up: seq<Fn>, i: nat, depth: nat, v: Var, dest: nat, canaries: bool)
    requires i <= depth < |up|
    ensures var b := FirstBlock(up, i, depth);
            ChaseFrom(up, i, depth, v, dest, canaries).None? <==>
            b < depth && forall k :: 0 <= k < |up[b].captures| ==> up[b].captures[k].id != v.id
    decreases depth - i
  {
    if i < depth && !up[i].isBlock {
      ChaseFailsIff(up, i + 1, depth, v, dest, canaries);
    }
  }

  // ---------- the emitter ----------

  /** calculate_chain_depth: the owner's distance up the chain. */
  method ChainDepth(up: seq<Fn>, owner: nat) returns (depth: nat)
    ensures depth <= |up|
    ensures forall k :: 0 <= k < depth ==> up[k].id != owner
    ensures depth < |up| ==> up[depth].id == owner
  {
    depth := 0;
    while depth < |up| && up[depth].id != owner
      invariant depth <= |up| && forall k :: 0 <= k < depth ==> up[k].id != owner
    {
      depth := depth + 1;
    }
  }

  /** find_capture_index. */
  method FindCaptureIndex(caps: seq<Var>, v: Var) returns (r: Option<nat>)
    ensures r == CaptureIndex(caps, v)
  {
    for i := 0 to |caps|
      invariant forall k :: 0 <= k < i ==> caps[k].id != v.id
    {
      if caps[i].id == v.id { return Some(i); }
    }
    r := None;
  }

  method FindCaptureOffset(caps: seq<Var>, idx: nat) returns (off: nat)
    requires idx <= |caps|
    ensures off == CaptureOffset(caps[..idx])
  {
    off := 16;
    for i := 0 to idx
      invariant off == CaptureOffset(caps[..i])
    {
      assert caps[..i + 1][..i] == caps[..i];
      off := NextSlot(off, SlotAlign(caps[i]), SlotSize(caps[i]));
    }
  }

  class Emitter {
    var code: seq<Instr>

    /** emit_static_chain_var_addr; fails, as the source reports an internal error, at a
        block that does not capture v. */
    method EmitStaticChainVarAddr(up: seq<Fn>, owner: nat, v: Var, dest: nat, canaries: bool) returns (ok: bool)
      requires up != [] && !up[0].isBlock && up[0].id != owner && exists k :: 0 <= k < |up| && up[k].id == owner
      modifies this
      ensures old(code) <= code
      ensures exists depth: nat :: IsDepth(up, owner, depth)
                && ok == ChaseCode(up, depth, v, dest, canaries).Some?
                && (ok ==> code == old(code) + ChaseCode(up, depth, v, dest, canaries).value)
    {
      var depth := ChainDepth(up, owner);
      var head := [Lea(dest, LinkSlot(canaries)), Load(dest, dest)];
      code := code + head;
      assert IsDepth(up, owner, depth);
      var i := 1;
      while i < depth
        invariant 1 <= i <= depth && old(code) + head <= code
        invariant var all := ChaseFrom(up, 1, depth, v, dest, canaries);
                  var rest := ChaseFrom(up, i, depth, v, dest, canaries);
                  all.Some? == rest.Some? && (rest.Some? ==> old(code) + head + all.value == code + rest.value)
      {
        if up[i].isBlock {
          var c := FindCaptureIndex(up[i].captures, v);
          if c.None? { return false; }
          var off := FindCaptureOffset(up[i].captures, c.value);
          code := code + CaptureCode(v, dest, canaries, off);
          Assoc(old(code), head, ChaseFrom(up, 1, depth, v, dest, canaries).value);
          return true;
        }
        if ChaseFrom(up, i + 1, depth, v, dest, canaries).Some? {
          Assoc(code, HopCode(dest, canaries), ChaseFrom(up, i + 1, depth, v, dest, canaries).value);
        }
        code := code + HopCode(dest, canaries);
        i := i + 1;
      }
      code := code + OwnerCode(v, dest);
      Assoc(old(code), head, ChaseFrom(up, 1, depth, v, dest, canaries).value);
      ok := true;
    }
  }

  /** The owner is the first function up the chain with its identity. */
  predicate IsDepth(up: seq<Fn>, owner: nat, depth: nat) {
    1 <= depth < |up| && up[depth].id == owner && forall k :: 0 <= k < depth ==> up[k].id != owner
  }
}
