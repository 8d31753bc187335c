/** Where the translator departs from bpf(4), one pair of lemmas per
    departure. The `AsWritten` lemma exhibits an input on which the code
    emitted by `src/lib.rs` (or the helper in `src/ll/util.c`) computes
    something other than what bpf(4) prescribes for the same instruction,
    read off the filter machine in the `Corrected` dialect. The `Corrected`
    lemma states, for every input, what the corrected translator emits and
    that it means what bpf(4) says. */
module Findings {
  import opened Results
  import opened Opcode
  import opened Dialects
  import opened Ir
  import opened Translate
  import opened Agreement
  import opened Scenarios
  import Machine
  import Interp
  import Util
  import Word
  import Simulation

  /** An instruction with the canonical code of `op` is translated as `op`
      is. */
  lemma LowersAs(d: Dialect, op: Op, jt: bv8, jf: bv8, k: bv32, idx: nat, n: nat)
    ensures Lower(d, Insn(op, jt, jf, k), idx, n) == Lowering.LowerOp(d, op, Insn(op, jt, jf, k), idx, n)
  {
    DecodeEncode(op);
    Lowering.LowerIsLowerOp(d, Insn(op, jt, jf, k), idx, n);
  }

  /** `A <- A op k` with `A op k` defined as `r`. */
  lemma StoreBinRuns(d: Dialect, bop: BinOp, k: bv32, r: bv32, st: Machine.State, pkt: seq<bv8>)
    requires Interp.EvalBin(bop, st.a, k) == Some(r)
    ensures Interp.ExecInst(d, StoreA(Bin(bop, LoadedA, Const(k))), st, Loaded(st), pkt)
         == Interp.Proceed(st.(a := r), Loaded(st))
  {
    EvalLoadedA(d, st, pkt);
    EvalConst(d, k, st, pkt);
    EvalBinOf(d, bop, LoadedA, Const(k), st.a, k, st, pkt);
  }

  /** A comparison of `A` with `k`. */
  lemma CompareRuns(d: Dialect, p: Pred, k: bv32, st: Machine.State, pkt: seq<bv8>)
    ensures Interp.Test(d, ICmp(p, LoadedA, Const(k)), st, Loaded(st), pkt) == Some(Interp.Compare(p, st.a, k))
  {
    EvalLoadedA(d, st, pkt);
    EvalConst(d, k, st, pkt);
    TestIs(d, ICmp(p, LoadedA, Const(k)), st, pkt, st.a, k);
  }

  // The false edge of a conditional jump.

  /** `JEQ #1, jt 0, jf 2` at the head of a four-instruction program, with
      `A = 0`: the emitted `br` sends both edges to instruction 1, so the
      block goes there, while bpf(4) skips two instructions and goes to 3. */
  lemma FalseEdgeAsWritten(st: Machine.State, pkt: seq<bv8>)
    requires st.a == 0
    ensures Lower(AsWritten, Insn(Jcond(Jeq, SrcK), 0, 2, 1), 0, 4)
         == Success(CondBr(ICmp(Eq, LoadedA, Const(1)), 1, 1))
    ensures Interp.ExecInst(AsWritten, CondBr(ICmp(Eq, LoadedA, Const(1)), 1, 1), st, Loaded(st), pkt)
         == Interp.Leave(Interp.Goto(1, st))
    ensures Machine.Step(Corrected, Jcond(Jeq, SrcK), Insn(Jcond(Jeq, SrcK), 0, 2, 1), 0, st, pkt)
         == Machine.Jump(3, st)
  {
    LowersAs(AsWritten, Jcond(Jeq, SrcK), 0, 2, 1, 0, 4);
    CompareRuns(AsWritten, Eq, 1, st, pkt);
  }

  /** bpf(4)'s jump conditions: unsigned `>` and `>=`, equality, and a bit
      in common for `JSET`. */
  predicate Bpf4Taken(j: JmpOp, a: bv32, b: bv32) {
    match j
    case Jgt => a > b
    case Jge => a >= b
    case Jeq => a == b
    case Jset => a & b != 0
  }

  lemma TakenCorrected(j: JmpOp, a: bv32, b: bv32)
    ensures Machine.Taken(Corrected, j, a, b) == Bpf4Taken(j, a, b)
  {
  }

  /** The corrected translation of a conditional jump. */
  lemma LowerBranchCorrected(j: JmpOp, s: Src, insn: BpfInsn, idx: nat, n: nat)
    requires Lowering.LowerOp(Corrected, Jcond(j, s), insn, idx, n).Success?
    ensures Lowering.LowerOp(Corrected, Jcond(j, s), insn, idx, n).value
         == CondBr(Lowering.CondFor(Corrected, j, Lowering.SrcVal(s, insn.k)),
                   BranchTarget(idx, insn.jt), BranchTarget(idx, insn.jf))
  {
  }

  /** A conditional branch whose condition evaluates to `c`. */
  lemma CondBrRuns(c: Cond, t: nat, f: nat, taken: bool, st: Machine.State, pkt: seq<bv8>)
    requires Interp.Test(Corrected, c, st, Loaded(st), pkt) == Some(taken)
    ensures Interp.ExecInst(Corrected, CondBr(c, t, f), st, Loaded(st), pkt)
         == Interp.Leave(Interp.Goto(if taken then t else f, st))
  {
  }

  /** The corrected conditional jump goes to `jt` when bpf(4)'s condition
      holds and to `jf` otherwise, both relative to the next instruction.
      (`Lowering.LowerIsLowerOp` shows that every code decoding to
      `Jcond(j, s)` is translated this way.) */
  lemma BranchCorrected(j: JmpOp, s: Src, insn: BpfInsn, idx: nat, n: nat, st: Machine.State, pkt: seq<bv8>)
    requires Lowering.LowerOp(Corrected, Jcond(j, s), insn, idx, n).Success?
    ensures
      var taken := Bpf4Taken(j, st.a, Machine.Operand(s, insn, st));
      Interp.ExecInst(Corrected, Lowering.LowerOp(Corrected, Jcond(j, s), insn, idx, n).value, st, Loaded(st), pkt)
        == Interp.Leave(Interp.Goto(idx + 1 + (if taken then insn.jt else insn.jf) as int, st))
  {
    var b := Machine.Operand(s, insn, st);
    LowerBranchCorrected(j, s, insn, idx, n);
    CondAgrees(Corrected, j, s, insn, st, pkt);
    TakenCorrected(j, st.a, b);
    CondBrRuns(Lowering.CondFor(Corrected, j, Lowering.SrcVal(s, insn.k)),
               BranchTarget(idx, insn.jt), BranchTarget(idx, insn.jf), Bpf4Taken(j, st.a, b), st, pkt);
  }

  // Signed comparisons.

  /** `JGT #1` and `JGE #1` with `A = 0xffffffff`: the emitted signed
      comparisons read `A` as -1 and fail, while bpf(4) compares unsigned
      and takes both jumps. */
  lemma SignedCompareAsWritten(st: Machine.State, pkt: seq<bv8>)
    requires st.a == 0xffff_ffff
    ensures Lower(AsWritten, Insn(Jcond(Jgt, SrcK), 0, 0, 1), 0, 2)
         == Success(CondBr(ICmp(Sgt, LoadedA, Const(1)), 1, 1))
    ensures Lower(AsWritten, Insn(Jcond(Jge, SrcK), 0, 0, 1), 0, 2)
         == Success(CondBr(ICmp(Sge, LoadedA, Const(1)), 1, 1))
    ensures Interp.Test(AsWritten, ICmp(Sgt, LoadedA, Const(1)), st, Loaded(st), pkt) == Some(false)
    ensures Interp.Test(AsWritten, ICmp(Sge, LoadedA, Const(1)), st, Loaded(st), pkt) == Some(false)
    ensures Machine.Taken(Corrected, Jgt, st.a, 1) && Machine.Taken(Corrected, Jge, st.a, 1)
  {
    LowersAs(AsWritten, Jcond(Jgt, SrcK), 0, 0, 1, 0, 2);
    LowersAs(AsWritten, Jcond(Jge, SrcK), 0, 0, 1, 0, 2);
    CompareRuns(AsWritten, Sgt, 1, st, pkt);
    CompareRuns(AsWritten, Sge, 1, st, pkt);
  }

  /** `JSET #0x80000000` with `A = 0x80000000`: the emitted test
      `(A & k) > 0`, signed, fails on the sign bit, while bpf(4) takes the
      jump because the two share a bit. */
  lemma JsetAsWritten(st: Machine.State, pkt: seq<bv8>)
    requires st.a == 0x8000_0000
    ensures Lower(AsWritten, Insn(Jcond(Jset, SrcK), 0, 0, 0x8000_0000), 0, 2)
         == Success(CondBr(ICmp(Sgt, Bin(Ir.And, LoadedA, Const(0x8000_0000)), Const(0)), 1, 1))
    ensures Interp.Test(AsWritten, ICmp(Sgt, Bin(Ir.And, LoadedA, Const(0x8000_0000)), Const(0)), st, Loaded(st), pkt)
         == Some(false)
    ensures Machine.Taken(Corrected, Jset, st.a, 0x8000_0000)
  {
    LowersAs(AsWritten, Jcond(Jset, SrcK), 0, 0, 0x8000_0000, 0, 2);
    TestMask(AsWritten, Const(0x8000_0000), 0x8000_0000, st, pkt);
  }

  // Signed division, remainder and right shift.

  lemma SDivOfMinusOne()
    ensures Interp.EvalBin(SDiv, 0xffff_ffff, 2) == Some(0) && Machine.AluResult(Corrected, AluOp.Div, 0xffff_ffff, 2) == Some(0x7fff_ffff)
  {
  }

  lemma SRemOfMinusOne()
    ensures Interp.EvalBin(SRem, 0xffff_ffff, 2) == Some(0xffff_ffff) && Machine.AluResult(Corrected, AluOp.Mod, 0xffff_ffff, 2) == Some(1)
  {
  }

  lemma AShrOfSignBit()
    ensures Interp.EvalBin(AShr, 0x8000_0000, 1) == Some(0xc000_0000) && Machine.AluResult(Corrected, AluOp.Rsh, 0x8000_0000, 1) == Some(0x4000_0000)
  {
  }

  /** `DIV #2` with `A = 0xffffffff`: the emitted `sdiv` computes -1 / 2 = 0,
      while bpf(4) divides unsigned and gets 0x7fffffff. */
  lemma DivAsWritten(st: Machine.State, pkt: seq<bv8>)
    requires st.a == 0xffff_ffff
    ensures Lower(AsWritten, Insn(Alu(AluOp.Div, SrcK), 0, 0, 2), 0, 1)
         == Success(StoreA(Bin(SDiv, LoadedA, Const(2))))
    ensures Interp.ExecInst(AsWritten, StoreA(Bin(SDiv, LoadedA, Const(2))), st, Loaded(st), pkt)
         == Interp.Proceed(st.(a := 0), Loaded(st))
    ensures Machine.AluResult(Corrected, AluOp.Div, st.a, 2) == Some(0x7fff_ffff)
  {
    LowersAs(AsWritten, Alu(AluOp.Div, SrcK), 0, 0, 2, 0, 1);
    SDivOfMinusOne();
    StoreBinRuns(AsWritten, SDiv, 2, 0, st, pkt);
  }

  /** `MOD #2` with `A = 0xffffffff`: the emitted `srem` computes -1 % 2 =
      -1, while bpf(4)'s unsigned remainder is 1. */
  lemma ModAsWritten(st: Machine.State, pkt: seq<bv8>)
    requires st.a == 0xffff_ffff
    ensures Lower(AsWritten, Insn(Alu(AluOp.Mod, SrcK), 0, 0, 2), 0, 1)
         == Success(StoreA(Bin(SRem, LoadedA, Const(2))))
    ensures Interp.ExecInst(AsWritten, StoreA(Bin(SRem, LoadedA, Const(2))), st, Loaded(st), pkt)
         == Interp.Proceed(st.(a := 0xffff_ffff), Loaded(st))
    ensures Machine.AluResult(Corrected, AluOp.Mod, st.a, 2) == Some(1)
  {
    LowersAs(AsWritten, Alu(AluOp.Mod, SrcK), 0, 0, 2, 0, 1);
    SRemOfMinusOne();
    StoreBinRuns(AsWritten, SRem, 2, 0xffff_ffff, st, pkt);
  }

  /** `RSH #1` with `A = 0x80000000`: the emitted `ashr` copies the sign
      bit in, giving 0xc0000000, while bpf(4) shifts in a zero and gets
      0x40000000. */
  lemma RshAsWritten(st: Machine.State, pkt: seq<bv8>)
    requires st.a == 0x8000_0000
    ensures Lower(AsWritten, Insn(Alu(AluOp.Rsh, SrcK), 0, 0, 1), 0, 1)
         == Success(StoreA(Bin(AShr, LoadedA, Const(1))))
    ensures Interp.ExecInst(AsWritten, StoreA(Bin(AShr, LoadedA, Const(1))), st, Loaded(st), pkt)
         == Interp.Proceed(st.(a := 0xc000_0000), Loaded(st))
    ensures Machine.AluResult(Corrected, AluOp.Rsh, st.a, 1) == Some(0x4000_0000)
  {
    LowersAs(AsWritten, Alu(AluOp.Rsh, SrcK), 0, 0, 1, 0, 1);
    AShrOfSignBit();
    StoreBinRuns(AsWritten, AShr, 1, 0xc000_0000, st, pkt);
  }

  /** The block stores `w` into `A`, or is undefined when `w` is. */
  predicate StoresA(r: Interp.InstEffect, st: Machine.State, w: Option<bv32>) {
    r == if w.None? then Interp.Leave(Interp.Stuck) else Interp.Proceed(st.(a := w.value), Loaded(st))
  }

  /** The corrected translation of `A <- A op src` stores what LLVM's
      instruction for `op` computes. */
  lemma AluCorrected(op: AluOp, s: Src, insn: BpfInsn, idx: nat, n: nat, st: Machine.State, pkt: seq<bv8>)
    ensures Lowering.LowerOp(Corrected, Alu(op, s), insn, idx, n).Success?
    ensures StoresA(Interp.ExecInst(Corrected, Lowering.LowerOp(Corrected, Alu(op, s), insn, idx, n).value, st, Loaded(st), pkt),
                    st, Interp.EvalBin(Lowering.BinOpFor(Corrected, op), st.a, Machine.Operand(s, insn, st)))
  {
    var b := Machine.Operand(s, insn, st);
    var src := Lowering.SrcVal(s, insn.k);
    var bop := Lowering.BinOpFor(Corrected, op);
    EvalLoadedA(Corrected, st, pkt);
    EvalSrc(Corrected, s, insn, st, pkt);
    EvalBinOf(Corrected, bop, LoadedA, src, st.a, b, st, pkt);
  }

  lemma UDivIs(a: bv32, b: bv32)
    ensures Interp.EvalBin(Lowering.BinOpFor(Corrected, AluOp.Div), a, b) == if b == 0 then None else Some(a / b)
  {
    assert Interp.EvalBin(UDiv, a, b) == Word.UDiv(a, b);
  }

  lemma URemIs(a: bv32, b: bv32)
    ensures Interp.EvalBin(Lowering.BinOpFor(Corrected, AluOp.Mod), a, b) == if b == 0 then None else Some(a % b)
  {
    assert Interp.EvalBin(URem, a, b) == Word.URem(a, b);
  }

  lemma LShrIs(a: bv32, b: bv32)
    ensures Interp.EvalBin(Lowering.BinOpFor(Corrected, AluOp.Rsh), a, b) == if b < 32 then Some(a >> b) else None
  {
    assert Interp.EvalBin(LShr, a, b) == Word.LShr(a, b);
  }

  /** The corrected `DIV` is bpf(4)'s unsigned division: the block stores
      `A / b` for the operand `b`, and is undefined, as LLVM's `udiv` is,
      when `b` is zero. */
  lemma DivCorrected(s: Src, insn: BpfInsn, idx: nat, n: nat, st: Machine.State, pkt: seq<bv8>)
    ensures Lowering.LowerOp(Corrected, Alu(AluOp.Div, s), insn, idx, n).Success?
    ensures
      var b := Machine.Operand(s, insn, st);
      StoresA(Interp.ExecInst(Corrected, Lowering.LowerOp(Corrected, Alu(AluOp.Div, s), insn, idx, n).value, st, Loaded(st), pkt),
              st, if b == 0 then None else Some(st.a / b))
  {
    AluCorrected(AluOp.Div, s, insn, idx, n, st, pkt);
    UDivIs(st.a, Machine.Operand(s, insn, st));
  }

  /** The corrected `MOD` is bpf(4)'s unsigned remainder `A % b`, undefined
      when `b` is zero. */
  lemma ModCorrected(s: Src, insn: BpfInsn, idx: nat, n: nat, st: Machine.State, pkt: seq<bv8>)
    ensures Lowering.LowerOp(Corrected, Alu(AluOp.Mod, s), insn, idx, n).Success?
    ensures
      var b := Machine.Operand(s, insn, st);
      StoresA(Interp.ExecInst(Corrected, Lowering.LowerOp(Corrected, Alu(AluOp.Mod, s), insn, idx, n).value, st, Loaded(st), pkt),
              st, if b == 0 then None else Some(st.a % b))
  {
    AluCorrected(AluOp.Mod, s, insn, idx, n, st, pkt);
    URemIs(st.a, Machine.Operand(s, insn, st));
  }

  /** The corrected `RSH` shifts zeros in, `A >> b`, and is undefined, as
      LLVM's `lshr` is, for a shift by 32 or more. */
  lemma RshCorrected(s: Src, insn: BpfInsn, idx: nat, n: nat, st: Machine.State, pkt: seq<bv8>)
    ensures Lowering.LowerOp(Corrected, Alu(AluOp.Rsh, s), insn, idx, n).Success?
    ensures
      var b := Machine.Operand(s, insn, st);
      StoresA(Interp.ExecInst(Corrected, Lowering.LowerOp(Corrected, Alu(AluOp.Rsh, s), insn, idx, n).value, st, Loaded(st), pkt),
              st, if b < 32 then Some(st.a >> b) else None)
  {
    AluCorrected(AluOp.Rsh, s, insn, idx, n, st, pkt);
    LShrIs(st.a, Machine.Operand(s, insn, st));
  }

  // RET with a constant.

  /** The one-instruction program `ret #k`. */
  function ReturnK(k: bv32): seq<BpfInsn> {
    [Insn(RetK, 0, 0, k)]
  }

  lemma ReturnKConverts(d: Dialect, k: bv32)
    ensures Convert(d, ReturnK(k)).Success?
  {
    InsnLowers(d, RetK, ReturnK(k)[0], 0, 1);
    LowersOneMore(d, ReturnK(k), 0);
    ReturnClass(RetK);
    Converts(d, ReturnK(k));
  }

  lemma ReturnKRuns(d: Dialect, k: bv32, pkt: seq<bv8>)
    ensures Machine.Run(d, ReturnK(k), pkt) == Machine.Verdict(if d == AsWritten then 0 else k)
  {
    DecodeEncode(RetK);
    RunReturns(d, ReturnK(k), 0, RetK, Machine.Initial, if d == AsWritten then 0 else k, pkt);
  }

  /** `ret #5`: the generated function returns `X`, which the prolog set to
      0, while bpf(4) accepts 5 bytes. */
  lemma ReturnKAsWritten(pkt: seq<bv8>, a0: bv32, x0: bv32)
    ensures Convert(AsWritten, ReturnK(5)).Success?
    ensures Forward(Convert(AsWritten, ReturnK(5)).value)
    ensures Interp.Run(AsWritten, Convert(AsWritten, ReturnK(5)).value, pkt, a0, x0) == Machine.Verdict(0)
    ensures Machine.Run(Corrected, ReturnK(5), pkt) == Machine.Verdict(5)
  {
    ReturnKConverts(AsWritten, 5);
    Simulation.ConvertPreservesMeaning(AsWritten, ReturnK(5), pkt, a0, x0);
    ReturnKRuns(AsWritten, 5, pkt);
    ReturnKRuns(Corrected, 5, pkt);
  }

  /** The corrected `ret #k` returns `k`, for every `k` and packet. */
  lemma ReturnKCorrected(k: bv32, pkt: seq<bv8>, a0: bv32, x0: bv32)
    ensures Convert(Corrected, ReturnK(k)).Success?
    ensures Forward(Convert(Corrected, ReturnK(k)).value)
    ensures Interp.Run(Corrected, Convert(Corrected, ReturnK(k)).value, pkt, a0, x0) == Machine.Verdict(k)
  {
    ReturnKConverts(Corrected, k);
    Simulation.ConvertPreservesMeaning(Corrected, ReturnK(k), pkt, a0, x0);
    ReturnKRuns(Corrected, k, pkt);
  }

  // The half-word load.

  /** On the packet `12 34`, the shipped `ldh` at offset 0 returns 0x3412;
      bpf(4)'s `P[0:2]` is 0x1234. */
  lemma LdhAsWritten()
    ensures Interp.CallHelper(AsWritten, Ldh, [0x12, 0x34], 0) == Some(0x3412)
    ensures Machine.PacketLoad(Corrected, H, [0x12, 0x34], 0) == Some(0x1234)
  {
  }

  /** The corrected `ldh` reads the two bytes at the offset in network
      order, the first one high, and is undefined when they are not both in
      the packet. */
  lemma LdhCorrected(pkt: seq<bv8>, off: bv32)
    ensures
      var o := Word.Signed(off);
      var r := Interp.CallHelper(Corrected, Ldh, pkt, off);
      && (r.Some? <==> 0 <= o && o + 2 <= |pkt|)
      && (r.Some? ==> r.value == Util.Word2(pkt[o], pkt[o + 1]))
  {
    var o := Word.Signed(off);
    if 0 <= o && o + 2 <= |pkt| {
      Util.LdhNetIsNetHalf(pkt, o);
    }
  }
}
