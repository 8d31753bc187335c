/** Each IR instruction the translator emits does what the corresponding
    instruction of the filter machine does, once the block has loaded `A`
    and `X`: it falls through with the same registers and scratch memory,
    jumps to the same place, returns the same verdict, or is undefined
    exactly where the machine faults. The machine and the linked helper
    library follow the same dialect. */
module Agreement {
  import opened Results
  import opened Word
  import opened Util
  import opened Opcode
  import opened Dialects
  import opened Ir
  import opened Translate
  import opened Lowering
  import Machine
  import Interp

  /** The frame of a block once its loads of `A` and `X` have run. */
  function Loaded(st: Machine.State): Interp.Frame {
    Interp.Frame(Some(st.a), Some(st.x))
  }

  /** An IR instruction's effect corresponds to a machine step: falling
      through keeps the frame, a jump is a branch, a return a return, and a
      machine fault is undefined behaviour. */
  predicate Agrees(e: Machine.Effect, r: Interp.InstEffect, fr: Interp.Frame) {
    match e
    case Continue(st') => r == Interp.Proceed(st', fr)
    case Jump(t, st') => r == Interp.Leave(Interp.Goto(t, st'))
    case Return(v) => r == Interp.Leave(Interp.Return(v))
    case Fault => r == Interp.Leave(Interp.Stuck)
  }

  // Values. Each lemma evaluates one shape of value tree.

  lemma EvalConst(d: Dialect, k: bv32, st: Machine.State, pkt: seq<bv8>)
    ensures Interp.Eval(d, Const(k), st, Loaded(st), pkt) == Some(k)
  {
  }

  lemma EvalLoadedA(d: Dialect, st: Machine.State, pkt: seq<bv8>)
    ensures Interp.Eval(d, LoadedA, st, Loaded(st), pkt) == Some(st.a)
  {
  }

  lemma EvalLoadedX(d: Dialect, st: Machine.State, pkt: seq<bv8>)
    ensures Interp.Eval(d, LoadedX, st, Loaded(st), pkt) == Some(st.x)
  {
  }

  /** The source operand evaluates to the machine's operand. */
  lemma EvalSrc(d: Dialect, s: Src, insn: BpfInsn, st: Machine.State, pkt: seq<bv8>)
    ensures Interp.Eval(d, SrcVal(s, insn.k), st, Loaded(st), pkt) == Some(Machine.Operand(s, insn, st))
  {
    match s
    case SrcK => EvalConst(d, insn.k, st, pkt);
    case SrcX => EvalLoadedX(d, st, pkt);
  }

  lemma EvalBinOf(d: Dialect, bop: BinOp, l: Val, r: Val, x: bv32, y: bv32, st: Machine.State, pkt: seq<bv8>)
    requires Interp.Eval(d, l, st, Loaded(st), pkt) == Some(x)
    requires Interp.Eval(d, r, st, Loaded(st), pkt) == Some(y)
    ensures Interp.Eval(d, Bin(bop, l, r), st, Loaded(st), pkt) == Interp.EvalBin(bop, x, y)
  {
  }

  lemma EvalCallOf(d: Dialect, h: Helper, off: Val, o: bv32, st: Machine.State, pkt: seq<bv8>)
    requires Interp.Eval(d, off, st, Loaded(st), pkt) == Some(o)
    ensures Interp.Eval(d, Call(h, off), st, Loaded(st), pkt) == Interp.CallHelper(d, h, pkt, o)
  {
  }

  /** The offset of an indexed load, `X + k`. */
  lemma EvalIndex(d: Dialect, k: bv32, st: Machine.State, pkt: seq<bv8>)
    ensures Interp.Eval(d, Bin(Ir.Add, LoadedX, Const(k)), st, Loaded(st), pkt) == Interp.EvalBin(Ir.Add, st.x, k)
  {
    EvalConst(d, k, st, pkt);
    EvalLoadedX(d, st, pkt);
    EvalBinOf(d, Ir.Add, LoadedX, Const(k), st.x, k, st, pkt);
  }

  /** The helper a packet load calls returns what the machine loads. */
  lemma HelperAgrees(d: Dialect, w: Width, pkt: seq<bv8>, off: bv32)
    ensures Interp.CallHelper(d, HelperFor(w), pkt, off) == Machine.PacketLoad(d, w, pkt, off)
  {
    match w
    case W => LdwAgrees(d, pkt, off);
    case H => LdhAgrees(d, pkt, off);
    case B => LdbAgrees(d, pkt, off);
  }

  lemma LdwAgrees(d: Dialect, pkt: seq<bv8>, off: bv32)
    ensures Interp.CallHelper(d, Ldw, pkt, off) == Machine.PacketLoad(d, W, pkt, off)
  {
  }

  lemma LdhAgrees(d: Dialect, pkt: seq<bv8>, off: bv32)
    ensures Interp.CallHelper(d, Ldh, pkt, off) == Machine.PacketLoad(d, H, pkt, off)
  {
    var o := Word.Signed(off);
    if d == Corrected && 0 <= o && o + 2 <= |pkt| {
      Util.LdhNetIsNetHalf(pkt, o);
    }
  }

  lemma LdbAgrees(d: Dialect, pkt: seq<bv8>, off: bv32)
    ensures Interp.CallHelper(d, Ldb, pkt, off) == Machine.PacketLoad(d, B, pkt, off)
  {
  }

  /** `msh` computes the machine's header length. */
  lemma MshAgrees(d: Dialect, pkt: seq<bv8>, off: bv32)
    ensures Interp.CallHelper(d, Msh, pkt, off) == Machine.HeaderLength(pkt, off)
  {
  }

  // Stores. A store of a value that evaluates to `r` does what setting the
  // register to `r` does.

  lemma StoreAAgrees(d: Dialect, v: Val, r: Option<bv32>, st: Machine.State, pkt: seq<bv8>)
    requires Interp.Eval(d, v, st, Loaded(st), pkt) == r
    ensures Agrees(Machine.SetA(r, st), Interp.ExecInst(d, StoreA(v), st, Loaded(st), pkt), Loaded(st))
  {
  }

  lemma StoreXAgrees(d: Dialect, v: Val, r: Option<bv32>, st: Machine.State, pkt: seq<bv8>)
    requires Interp.Eval(d, v, st, Loaded(st), pkt) == r
    ensures Agrees(Machine.SetX(r, st), Interp.ExecInst(d, StoreX(v), st, Loaded(st), pkt), Loaded(st))
  {
  }

  lemma StoreMemAgrees(d: Dialect, k: bv32, v: Val, w: bv32, st: Machine.State, pkt: seq<bv8>)
    requires Interp.Eval(d, v, st, Loaded(st), pkt) == Some(w)
    ensures Agrees(Machine.SetMem(Machine.MemWrite(st, k, w)), Interp.ExecInst(d, StoreMem(k, v), st, Loaded(st), pkt), Loaded(st))
  {
  }

  // Instructions, one lemma per kind.

  /** `LD ABS`: `A <- P[k:width]`. */
  lemma AbsAgrees(d: Dialect, op: Op, insn: BpfInsn, idx: nat, n: nat, st: Machine.State, pkt: seq<bv8>)
    requires op.LdAbs?
    ensures Agrees(Machine.Step(d, op, insn, idx, st, pkt),
                   Interp.ExecInst(d, LowerOp(d, op, insn, idx, n).value, st, Loaded(st), pkt),
                   Loaded(st))
  {
    EvalConst(d, insn.k, st, pkt);
    LoadVia(d, op.width, Const(insn.k), insn.k, st, pkt);
  }

  /** `LD IND`: `A <- P[X+k:width]`. */
  lemma IndAgrees(d: Dialect, op: Op, insn: BpfInsn, idx: nat, n: nat, st: Machine.State, pkt: seq<bv8>)
    requires op.LdInd?
    ensures Agrees(Machine.Step(d, op, insn, idx, st, pkt),
                   Interp.ExecInst(d, LowerOp(d, op, insn, idx, n).value, st, Loaded(st), pkt),
                   Loaded(st))
  {
    var off := Bin(Ir.Add, LoadedX, Const(insn.k));
    EvalIndex(d, insn.k, st, pkt);
    LoadVia(d, op.width, off, Word.Add(st.x, insn.k), st, pkt);
  }

  /** A call of the load helper at an offset that evaluates to `o` does
      what the machine's load at `o` does. */
  lemma LoadVia(d: Dialect, w: Width, off: Val, o: bv32, st: Machine.State, pkt: seq<bv8>)
    requires Interp.Eval(d, off, st, Loaded(st), pkt) == Some(o)
    ensures Agrees(Machine.SetA(Machine.PacketLoad(d, w, pkt, o), st),
                   Interp.ExecInst(d, StoreA(Call(HelperFor(w), off)), st, Loaded(st), pkt),
                   Loaded(st))
  {
    EvalCallOf(d, HelperFor(w), off, o, st, pkt);
    HelperAgrees(d, w, pkt, o);
    StoreAAgrees(d, Call(HelperFor(w), off), Machine.PacketLoad(d, w, pkt, o), st, pkt);
  }

  /** `LDX MSH`: `X <- 4*(P[k:1]&0xf)`. */
  lemma MshLoadAgrees(d: Dialect, op: Op, insn: BpfInsn, idx: nat, n: nat, st: Machine.State, pkt: seq<bv8>)
    requires op.LdxMsh?
    ensures Agrees(Machine.Step(d, op, insn, idx, st, pkt),
                   Interp.ExecInst(d, LowerOp(d, op, insn, idx, n).value, st, Loaded(st), pkt),
                   Loaded(st))
  {
    var k := insn.k;
    EvalConst(d, k, st, pkt);
    EvalCallOf(d, Msh, Const(k), k, st, pkt);
    MshAgrees(d, pkt, k);
    StoreXAgrees(d, Call(Msh, Const(k)), Machine.HeaderLength(pkt, k), st, pkt);
  }

  /** `LD IMM` and `LDX IMM`. */
  lemma ImmAgrees(d: Dialect, op: Op, insn: BpfInsn, idx: nat, n: nat, st: Machine.State, pkt: seq<bv8>)
    requires op.LdImm? || op.LdxImm?
    ensures Agrees(Machine.Step(d, op, insn, idx, st, pkt),
                   Interp.ExecInst(d, LowerOp(d, op, insn, idx, n).value, st, Loaded(st), pkt),
                   Loaded(st))
  {
    EvalConst(d, insn.k, st, pkt);
    if op.LdImm? {
      StoreAAgrees(d, Const(insn.k), Some(insn.k), st, pkt);
    } else {
      StoreXAgrees(d, Const(insn.k), Some(insn.k), st, pkt);
    }
  }

  /** `LD MEM` and `LDX MEM`: a read of a scratch word. */
  lemma MemLoadAgrees(d: Dialect, op: Op, insn: BpfInsn, idx: nat, n: nat, st: Machine.State, pkt: seq<bv8>)
    requires op.LdMem? || op.LdxMem?
    ensures Agrees(Machine.Step(d, op, insn, idx, st, pkt),
                   Interp.ExecInst(d, LowerOp(d, op, insn, idx, n).value, st, Loaded(st), pkt),
                   Loaded(st))
  {
    var r := Machine.MemRead(st, insn.k);
    assert Interp.Eval(d, MemAt(insn.k), st, Loaded(st), pkt) == r;
    if op.LdMem? {
      StoreAAgrees(d, MemAt(insn.k), r, st, pkt);
    } else {
      StoreXAgrees(d, MemAt(insn.k), r, st, pkt);
    }
  }

  /** `ST` and `STX`: a write of a scratch word. */
  lemma MemStoreAgrees(d: Dialect, op: Op, insn: BpfInsn, idx: nat, n: nat, st: Machine.State, pkt: seq<bv8>)
    requires op.St? || op.Stx?
    ensures Agrees(Machine.Step(d, op, insn, idx, st, pkt),
                   Interp.ExecInst(d, LowerOp(d, op, insn, idx, n).value, st, Loaded(st), pkt),
                   Loaded(st))
  {
    var k := insn.k;
    if op.St? {
      EvalLoadedA(d, st, pkt);
      StoreMemAgrees(d, k, LoadedA, st.a, st, pkt);
    } else {
      EvalLoadedX(d, st, pkt);
      StoreMemAgrees(d, k, LoadedX, st.x, st, pkt);
    }
  }

  /** `TAX` and `TXA`. */
  lemma TransferAgrees(d: Dialect, op: Op, insn: BpfInsn, idx: nat, n: nat, st: Machine.State, pkt: seq<bv8>)
    requires op.Tax? || op.Txa?
    ensures Agrees(Machine.Step(d, op, insn, idx, st, pkt),
                   Interp.ExecInst(d, LowerOp(d, op, insn, idx, n).value, st, Loaded(st), pkt),
                   Loaded(st))
  {
    EvalLoadedA(d, st, pkt);
    EvalLoadedX(d, st, pkt);
    if op.Tax? {
      StoreXAgrees(d, LoadedA, Some(st.a), st, pkt);
    } else {
      StoreAAgrees(d, LoadedX, Some(st.x), st, pkt);
    }
  }

  /** `NEG`: `A <- -A`. */
  lemma NegAgrees(d: Dialect, op: Op, insn: BpfInsn, idx: nat, n: nat, st: Machine.State, pkt: seq<bv8>)
    requires op.Neg?
    ensures Agrees(Machine.Step(d, op, insn, idx, st, pkt),
                   Interp.ExecInst(d, LowerOp(d, op, insn, idx, n).value, st, Loaded(st), pkt),
                   Loaded(st))
  {
    EvalLoadedA(d, st, pkt);
    assert Interp.Eval(d, Ir.Neg(LoadedA), st, Loaded(st), pkt) == Some(Negate(st.a));
    StoreAAgrees(d, Ir.Neg(LoadedA), Some(Negate(st.a)), st, pkt);
  }

  // Jumps.

  /** `JA`: `pc += k`. */
  lemma JaAgrees(d: Dialect, op: Op, insn: BpfInsn, idx: nat, n: nat, st: Machine.State, pkt: seq<bv8>)
    requires op.Ja? && LowerOp(d, op, insn, idx, n).Success?
    ensures Agrees(Machine.Step(d, op, insn, idx, st, pkt),
                   Interp.ExecInst(d, LowerOp(d, op, insn, idx, n).value, st, Loaded(st), pkt),
                   Loaded(st))
  {
  }

  /** A comparison whose operands evaluate to `x` and `y` decides `x pred y`. */
  lemma TestIs(d: Dialect, c: Cond, st: Machine.State, pkt: seq<bv8>, x: bv32, y: bv32)
    requires Interp.Eval(d, c.lhs, st, Loaded(st), pkt) == Some(x)
    requires Interp.Eval(d, c.rhs, st, Loaded(st), pkt) == Some(y)
    ensures Interp.Test(d, c, st, Loaded(st), pkt) == Some(Interp.Compare(c.pred, x, y))
  {
  }

  lemma JgtAgrees(d: Dialect, src: Val, a: bv32, b: bv32)
    ensures Interp.Compare(CondFor(d, Jgt, src).pred, a, b) == Machine.Taken(d, Jgt, a, b)
  {
  }

  lemma JgeAgrees(d: Dialect, src: Val, a: bv32, b: bv32)
    ensures Interp.Compare(CondFor(d, Jge, src).pred, a, b) == Machine.Taken(d, Jge, a, b)
  {
  }

  /** The predicate of `JGT`, `JGE` and `JEQ` is the machine's comparison. */
  lemma CompareAgrees(d: Dialect, j: JmpOp, src: Val, a: bv32, b: bv32)
    requires j != Jset
    ensures Interp.Compare(CondFor(d, j, src).pred, a, b) == Machine.Taken(d, j, a, b)
  {
    match j
    case Jgt => JgtAgrees(d, src, a, b);
    case Jge => JgeAgrees(d, src, a, b);
    case Jeq =>
  }

  /** `JSET` tests `A & src` against zero the way the machine does. */
  lemma JsetAgrees(d: Dialect, src: Val, a: bv32, b: bv32)
    ensures Interp.Compare(CondFor(d, Jset, src).pred, a & b, 0) == Machine.Taken(d, Jset, a, b)
  {
  }

  /** `A & src` evaluates to the machine's mask. */
  lemma MaskIs(d: Dialect, src: Val, b: bv32, st: Machine.State, pkt: seq<bv8>)
    requires Interp.Eval(d, src, st, Loaded(st), pkt) == Some(b)
    ensures Interp.Eval(d, Bin(Ir.And, LoadedA, src), st, Loaded(st), pkt) == Some(st.a & b)
  {
    EvalLoadedA(d, st, pkt);
    EvalBinOf(d, Ir.And, LoadedA, src, st.a, b, st, pkt);
  }

  /** `JSET` compares the mask `A & src` with zero. */
  lemma TestMask(d: Dialect, src: Val, b: bv32, st: Machine.State, pkt: seq<bv8>)
    requires Interp.Eval(d, src, st, Loaded(st), pkt) == Some(b)
    ensures Interp.Test(d, CondFor(d, Jset, src), st, Loaded(st), pkt)
         == Some(Interp.Compare(CondFor(d, Jset, src).pred, st.a & b, 0))
  {
    MaskIs(d, src, b, st, pkt);
    EvalConst(d, 0, st, pkt);
    TestIs(d, CondFor(d, Jset, src), st, pkt, st.a & b, 0);
  }

  lemma MaskCondAgrees(d: Dialect, src: Val, b: bv32, st: Machine.State, pkt: seq<bv8>)
    requires Interp.Eval(d, src, st, Loaded(st), pkt) == Some(b)
    ensures Interp.Test(d, CondFor(d, Jset, src), st, Loaded(st), pkt) == Some(Machine.Taken(d, Jset, st.a, b))
  {
    TestMask(d, src, b, st, pkt);
    JsetAgrees(d, src, st.a, b);
  }

  lemma CmpCondAgrees(d: Dialect, j: JmpOp, src: Val, b: bv32, st: Machine.State, pkt: seq<bv8>)
    requires j != Jset
    requires Interp.Eval(d, src, st, Loaded(st), pkt) == Some(b)
    ensures Interp.Test(d, CondFor(d, j, src), st, Loaded(st), pkt) == Some(Machine.Taken(d, j, st.a, b))
  {
    EvalLoadedA(d, st, pkt);
    TestIs(d, CondFor(d, j, src), st, pkt, st.a, b);
    CompareAgrees(d, j, src, st.a, b);
  }

  /** The branch condition holds exactly when the machine takes the jump. */
  lemma CondAgrees(d: Dialect, j: JmpOp, s: Src, insn: BpfInsn, st: Machine.State, pkt: seq<bv8>)
    ensures Interp.Test(d, CondFor(d, j, SrcVal(s, insn.k)), st, Loaded(st), pkt)
         == Some(Machine.Taken(d, j, st.a, Machine.Operand(s, insn, st)))
  {
    var src, b := SrcVal(s, insn.k), Machine.Operand(s, insn, st);
    EvalSrc(d, s, insn, st, pkt);
    if j == Jset {
      MaskCondAgrees(d, src, b, st, pkt);
    } else {
      CmpCondAgrees(d, j, src, b, st, pkt);
    }
  }

  /** `JGT`, `JGE`, `JEQ`, `JSET`: `pc += (A op src) ? jt : jf`. */
  lemma JcondAgrees(d: Dialect, op: Op, insn: BpfInsn, idx: nat, n: nat, st: Machine.State, pkt: seq<bv8>)
    requires op.Jcond? && LowerOp(d, op, insn, idx, n).Success?
    ensures Agrees(Machine.Step(d, op, insn, idx, st, pkt),
                   Interp.ExecInst(d, LowerOp(d, op, insn, idx, n).value, st, Loaded(st), pkt),
                   Loaded(st))
  {
    CondAgrees(d, op.jop, op.src, insn, st, pkt);
  }

  // Arithmetic.

  lemma DivAgrees(d: Dialect, x: bv32, y: bv32)
    ensures Interp.EvalBin(BinOpFor(d, AluOp.Div), x, y) == Machine.AluResult(d, AluOp.Div, x, y)
  {
  }

  lemma ModAgrees(d: Dialect, x: bv32, y: bv32)
    ensures Interp.EvalBin(BinOpFor(d, AluOp.Mod), x, y) == Machine.AluResult(d, AluOp.Mod, x, y)
  {
  }

  lemma RshAgrees(d: Dialect, x: bv32, y: bv32)
    ensures Interp.EvalBin(BinOpFor(d, AluOp.Rsh), x, y) == Machine.AluResult(d, AluOp.Rsh, x, y)
  {
  }

  /** The LLVM instruction chosen for an ALU operation computes the
      machine's result, including where it is undefined. */
  lemma BinAgrees(d: Dialect, a: AluOp, x: bv32, y: bv32)
    ensures Interp.EvalBin(BinOpFor(d, a), x, y) == Machine.AluResult(d, a, x, y)
  {
    match a
    case Div => DivAgrees(d, x, y);
    case Mod => ModAgrees(d, x, y);
    case Rsh => RshAgrees(d, x, y);
    case _ =>
  }

  /** `ADD` ... `RSH`: `A <- A op src`. */
  lemma AluAgrees(d: Dialect, op: Op, insn: BpfInsn, idx: nat, n: nat, st: Machine.State, pkt: seq<bv8>)
    requires op.Alu?
    ensures Agrees(Machine.Step(d, op, insn, idx, st, pkt),
                   Interp.ExecInst(d, LowerOp(d, op, insn, idx, n).value, st, Loaded(st), pkt),
                   Loaded(st))
  {
    var src, b := SrcVal(op.src, insn.k), Machine.Operand(op.src, insn, st);
    var v := Bin(BinOpFor(d, op.aop), LoadedA, src);
    EvalLoadedA(d, st, pkt);
    EvalSrc(d, op.src, insn, st, pkt);
    EvalBinOf(d, BinOpFor(d, op.aop), LoadedA, src, st.a, b, st, pkt);
    BinAgrees(d, op.aop, st.a, b);
    StoreAAgrees(d, v, Machine.AluResult(d, op.aop, st.a, b), st, pkt);
  }

  // Returns.

  /** `RET A` and `RET K`; under the code as written `RET K` returns `X`. */
  lemma RetAgrees(d: Dialect, op: Op, insn: BpfInsn, idx: nat, n: nat, st: Machine.State, pkt: seq<bv8>)
    requires op.RetA? || op.RetK?
    ensures Agrees(Machine.Step(d, op, insn, idx, st, pkt),
                   Interp.ExecInst(d, LowerOp(d, op, insn, idx, n).value, st, Loaded(st), pkt),
                   Loaded(st))
  {
    EvalLoadedA(d, st, pkt);
    EvalLoadedX(d, st, pkt);
    EvalConst(d, insn.k, st, pkt);
  }

  /** Every instruction the translator accepts does what the machine does. */
  lemma OpAgrees(d: Dialect, op: Op, insn: BpfInsn, idx: nat, n: nat, st: Machine.State, pkt: seq<bv8>)
    requires LowerOp(d, op, insn, idx, n).Success?
    ensures Agrees(Machine.Step(d, op, insn, idx, st, pkt),
                   Interp.ExecInst(d, LowerOp(d, op, insn, idx, n).value, st, Loaded(st), pkt),
                   Loaded(st))
  {
    match op
    case LdAbs(_) => AbsAgrees(d, op, insn, idx, n, st, pkt);
    case LdInd(_) => IndAgrees(d, op, insn, idx, n, st, pkt);
    case LdImm => ImmAgrees(d, op, insn, idx, n, st, pkt);
    case LdxImm => ImmAgrees(d, op, insn, idx, n, st, pkt);
    case LdMem => MemLoadAgrees(d, op, insn, idx, n, st, pkt);
    case LdxMem => MemLoadAgrees(d, op, insn, idx, n, st, pkt);
    case LdxMsh => MshLoadAgrees(d, op, insn, idx, n, st, pkt);
    case St => MemStoreAgrees(d, op, insn, idx, n, st, pkt);
    case Stx => MemStoreAgrees(d, op, insn, idx, n, st, pkt);
    case Ja => JaAgrees(d, op, insn, idx, n, st, pkt);
    case Jcond(_, _) => JcondAgrees(d, op, insn, idx, n, st, pkt);
    case Alu(_, _) => AluAgrees(d, op, insn, idx, n, st, pkt);
    case Neg => NegAgrees(d, op, insn, idx, n, st, pkt);
    case Tax => TransferAgrees(d, op, insn, idx, n, st, pkt);
    case Txa => TransferAgrees(d, op, insn, idx, n, st, pkt);
    case RetA => RetAgrees(d, op, insn, idx, n, st, pkt);
    case RetK => RetAgrees(d, op, insn, idx, n, st, pkt);
  }

  /** The body `convert_insn` emits for an instruction it accepts does what
      the machine does with the decoded instruction. */
  lemma BodyAgrees(d: Dialect, insn: BpfInsn, idx: nat, n: nat, st: Machine.State, pkt: seq<bv8>)
    requires Lower(d, insn, idx, n).Success?
    ensures Decode(insn.code).Some?
    ensures Agrees(Machine.Step(d, Decode(insn.code).value, insn, idx, st, pkt),
                   Interp.ExecInst(d, Lower(d, insn, idx, n).value, st, Loaded(st), pkt),
                   Loaded(st))
  {
    LowerIsLowerOp(d, insn, idx, n);
    OpAgrees(d, Decode(insn.code).value, insn, idx, n, st, pkt);
  }
}
