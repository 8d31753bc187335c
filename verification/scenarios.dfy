/** The translator's own tests, restated as theorems about the model: the
    program of `jit_test` converts and returns 30 on any packet, and the
    program of `convert_all_insn`, which uses every supported instruction,
    converts. Both hold under either dialect. A third program, with one
    conditional jump to two different returns, shows the false edge and
    `RET K` of the code as written side by side with bpf(4). A fourth one
    reads an unwritten scratch word and then overwrites it: the model gives
    it no verdict, although whatever the read produced, the rest of the
    program returns 5. */
module Scenarios {
  import opened Results
  import opened Opcode
  import opened Dialects
  import opened Translate
  import Ir
  import Word
  import opened Layout
  import opened Lowering
  import opened Simulation
  import Machine
  import Interp

  /** An instruction with its canonical code and the given operands. */
  function Insn(op: Op, jt: bv8, jf: bv8, k: bv32): BpfInsn {
    BpfInsn(Encode(op), jt, jf, k)
  }

  /** A program converts when it is not empty, every instruction
      translates, and it ends in a return or a jump. */
  lemma Converts(d: Dialect, insns: seq<BpfInsn>)
    requires |insns| > 0 && LowersUpTo(d, insns, |insns|)
    requires BpfClass(insns[|insns| - 1].code) == BPF_RET || BpfClass(insns[|insns| - 1].code) == BPF_JMP
    ensures Convert(d, insns).Success?
  {
    ConvertSucceedsIff(d, insns);
  }

  /** An instruction with the canonical code of `op` translates as `op`
      does. */
  lemma InsnLowers(d: Dialect, op: Op, insn: BpfInsn, j: nat, n: nat)
    requires insn.code == Encode(op) && LowerOp(d, op, insn, j, n).Success?
    ensures Lower(d, insn, j, n).Success?
  {
    DecodeEncode(op);
    LowerIsLowerOp(d, insn, j, n);
  }

  lemma LowersOneMore(d: Dialect, insns: seq<BpfInsn>, m: nat)
    requires m < |insns| && LowersUpTo(d, insns, m) && Lower(d, insns[m], m, |insns|).Success?
    ensures LowersUpTo(d, insns, m + 1)
  {
  }

  // jit_test: A <- 10; X <- 20; A <- A + X; return A.

  function JitTest(): seq<BpfInsn> {
    [Insn(LdImm, 0, 0, 10), Insn(LdxImm, 0, 0, 20), Insn(Alu(AluOp.Add, SrcX), 0, 0, 0), Insn(RetA, 0, 0, 0)]
  }

  /** An instruction that falls through continues the run at the next one. */
  lemma RunContinues(d: Dialect, insns: seq<BpfInsn>, i: nat, op: Op, st: Machine.State, st': Machine.State, pkt: seq<bv8>)
    requires i < |insns| && Decode(insns[i].code) == Some(op)
    requires Machine.Step(d, op, insns[i], i, st, pkt) == Machine.Continue(st')
    ensures Machine.RunFrom(d, insns, i, st, pkt) == Machine.RunFrom(d, insns, i + 1, st', pkt)
  {
  }

  /** A return ends the run with its verdict. */
  lemma RunReturns(d: Dialect, insns: seq<BpfInsn>, i: nat, op: Op, st: Machine.State, v: bv32, pkt: seq<bv8>)
    requires i < |insns| && Decode(insns[i].code) == Some(op)
    requires Machine.Step(d, op, insns[i], i, st, pkt) == Machine.Return(v)
    ensures Machine.RunFrom(d, insns, i, st, pkt) == Machine.Verdict(v)
  {
  }

  lemma JitTestFrom3(d: Dialect, st: Machine.State, pkt: seq<bv8>)
    ensures Machine.RunFrom(d, JitTest(), 3, st, pkt) == Machine.Verdict(st.a)
  {
    DecodeEncode(RetA);
    RunReturns(d, JitTest(), 3, RetA, st, st.a, pkt);
  }

  lemma JitTestFrom2(d: Dialect, st: Machine.State, pkt: seq<bv8>)
    ensures Machine.RunFrom(d, JitTest(), 2, st, pkt) == Machine.Verdict(Word.Add(st.a, st.x))
  {
    var add := Alu(AluOp.Add, SrcX);
    DecodeEncode(add);
    var st' := st.(a := Word.Add(st.a, st.x));
    RunContinues(d, JitTest(), 2, add, st, st', pkt);
    JitTestFrom3(d, st', pkt);
  }

  lemma JitTestFrom1(d: Dialect, st: Machine.State, pkt: seq<bv8>)
    ensures Machine.RunFrom(d, JitTest(), 1, st, pkt) == Machine.Verdict(Word.Add(st.a, 20))
  {
    DecodeEncode(LdxImm);
    var st' := st.(x := 20);
    RunContinues(d, JitTest(), 1, LdxImm, st, st', pkt);
    JitTestFrom2(d, st', pkt);
  }

  /** The filter machine returns 30 on every packet. */
  lemma JitTestMachine(d: Dialect, pkt: seq<bv8>)
    ensures Machine.Run(d, JitTest(), pkt) == Machine.Verdict(30)
  {
    DecodeEncode(LdImm);
    var st' := Machine.Initial.(a := 10);
    RunContinues(d, JitTest(), 0, LdImm, Machine.Initial, st', pkt);
    JitTestFrom1(d, st', pkt);
    assert Word.Add(10, 20) == 30;
  }

  /** The first two instructions of the program translate. */
  lemma JitTestLowersLoads(d: Dialect)
    ensures LowersUpTo(d, JitTest(), 2)
  {
    var p := JitTest();
    InsnLowers(d, LdImm, p[0], 0, 4);
    LowersOneMore(d, p, 0);
    InsnLowers(d, LdxImm, p[1], 1, 4);
    LowersOneMore(d, p, 1);
  }

  /** Every instruction of the program translates. */
  lemma JitTestLowers(d: Dialect)
    ensures LowersUpTo(d, JitTest(), 4)
  {
    var p := JitTest();
    JitTestLowersLoads(d);
    InsnLowers(d, Alu(AluOp.Add, SrcX), p[2], 2, 4);
    LowersOneMore(d, p, 2);
    InsnLowers(d, RetA, p[3], 3, 4);
    LowersOneMore(d, p, 3);
  }

  /** The translator accepts the program: every instruction translates and
      the last one is a return. */
  lemma JitTestTranslates(d: Dialect)
    ensures Convert(d, JitTest()).Success?
  {
    JitTestLowers(d);
    assert BpfClass(JitTest()[3].code) == BPF_RET;
    Converts(d, JitTest());
  }

  /** The function generated for `jit_test` returns 30 on every packet, as
      the test expects, whatever the stack slots held. */
  lemma JitTestConverts(d: Dialect, pkt: seq<bv8>, a0: bv32, x0: bv32)
    ensures Convert(d, JitTest()).Success?
    ensures Ir.Forward(Convert(d, JitTest()).value)
    ensures Interp.Run(d, Convert(d, JitTest()).value, pkt, a0, x0) == Machine.Verdict(30)
  {
    JitTestTranslates(d);
    ConvertPreservesMeaning(d, JitTest(), pkt, a0, x0);
    JitTestMachine(d, pkt);
  }

  // convert_all_insn: every supported instruction once, all operands zero.

  /** The program of `ops` with every operand zero. */
  function ZeroOperands(ops: seq<Op>): (p: seq<BpfInsn>)
    ensures |p| == |ops|
    ensures forall j :: 0 <= j < |ops| ==> p[j] == Insn(ops[j], 0, 0, 0)
  {
    seq(|ops|, j requires 0 <= j < |ops| => Insn(ops[j], 0, 0, 0))
  }

  /** The instructions the translator accepts wherever they stand, as long
      as a jump has an instruction to go to: all but the two `LEN` loads. */
  type Supported = op: Op | !op.LdLen? && !op.LdxLen? witness RetA

  /** A supported instruction with zero operands translates at any position
      but the last, and at the last one too unless it is a jump. */
  lemma ZeroOperandLowers(d: Dialect, op: Supported, j: nat, n: nat)
    requires j < n && (op.Ja? || op.Jcond? ==> j + 1 < n)
    ensures Lower(d, Insn(op, 0, 0, 0), j, n).Success?
  {
    InsnLowers(d, op, Insn(op, 0, 0, 0), j, n);
  }

  /** Every instruction of a program of supported instructions with zero
      operands translates when it ends in a return: every jump then goes to
      the next instruction. */
  lemma ZeroOperandsLower(d: Dialect, ops: seq<Supported>)
    requires |ops| > 0 && (ops[|ops| - 1].RetA? || ops[|ops| - 1].RetK?)
    ensures LowersUpTo(d, ZeroOperands(ops), |ops|)
  {
    var p, n := ZeroOperands(ops), |ops|;
    forall j | 0 <= j < n
      ensures Lower(d, p[j], j, n).Success?
    {
      ZeroOperandLowers(d, ops[j], j, n);
    }
  }

  lemma ReturnClass(op: Op)
    requires op.RetA? || op.RetK?
    ensures BpfClass(Encode(op)) == BPF_RET
  {
  }

  /** Such a program converts. */
  lemma ZeroOperandsConvert(d: Dialect, ops: seq<Supported>)
    requires |ops| > 0 && (ops[|ops| - 1].RetA? || ops[|ops| - 1].RetK?)
    ensures Convert(d, ZeroOperands(ops)).Success?
  {
    var p := ZeroOperands(ops);
    ZeroOperandsLower(d, ops);
    ReturnClass(ops[|ops| - 1]);
    assert p[|p| - 1].code == Encode(ops[|ops| - 1]);
    Converts(d, p);
  }

  /** The loads, stores and the unconditional jump, in the test's order. */
  function LoadsAndStores(): seq<Supported> {
    [ LdAbs(W), LdAbs(H), LdAbs(B), LdInd(W), LdInd(H), LdInd(B), LdxMsh,
      LdImm, LdxImm, LdMem, LdxMem, St, Stx, Ja ]
  }

  /** The four conditional jumps against `k` or `X`. */
  function Branches(s: Src): seq<Supported> {
    [Jcond(Jgt, s), Jcond(Jge, s), Jcond(Jeq, s), Jcond(Jset, s)]
  }

  /** The ten binary ALU operations with operand `k` or `X`. */
  function Arithmetic(s: Src): seq<Supported> {
    [ Alu(AluOp.Add, s), Alu(AluOp.Sub, s), Alu(AluOp.Mul, s), Alu(AluOp.Div, s), Alu(AluOp.Mod, s),
      Alu(AluOp.And, s), Alu(AluOp.Or, s), Alu(AluOp.Xor, s), Alu(AluOp.Lsh, s), Alu(AluOp.Rsh, s) ]
  }

  /** The instructions of `convert_all_insn`, in its order. */
  function AllInsns(): seq<Supported> {
    LoadsAndStores() + Branches(SrcK) + Branches(SrcX) + Arithmetic(SrcX) + Arithmetic(SrcK)
    + [Neg, Tax, Txa, RetA, RetK]
  }

  /** The program of `convert_all_insn` converts, under either dialect. */
  lemma AllInsnsConvert(d: Dialect)
    ensures |AllInsns()| == 47
    ensures Convert(d, ZeroOperands(AllInsns())).Success?
  {
    ZeroOperandsConvert(d, AllInsns());
  }

  // Two paths: A <- a; if A > 1 then return 9 else return 7.

  /** `ld #a; jgt #1, jt 1, jf 0; ret #7; ret #9`. */
  function TwoPaths(a: bv32): seq<BpfInsn> {
    [Insn(LdImm, 0, 0, a), Insn(Jcond(Jgt, SrcK), 1, 0, 1), Insn(RetK, 0, 0, 7), Insn(RetK, 0, 0, 9)]
  }

  /** A jump continues the run at its target. */
  lemma RunJumps(d: Dialect, insns: seq<BpfInsn>, i: nat, op: Op, st: Machine.State, t: nat, st': Machine.State, pkt: seq<bv8>)
    requires i < |insns| && Decode(insns[i].code) == Some(op)
    requires Machine.Step(d, op, insns[i], i, st, pkt) == Machine.Jump(t, st')
    ensures Machine.RunFrom(d, insns, i, st, pkt) == Machine.RunFrom(d, insns, t, st', pkt)
  {
  }

  /** The verdict `ret #k` at position `i` of `TwoPaths(a)` gives. */
  lemma TwoPathsReturn(d: Dialect, a: bv32, i: nat, st: Machine.State, pkt: seq<bv8>)
    requires i == 2 || i == 3
    ensures Machine.RunFrom(d, TwoPaths(a), i, st, pkt)
         == Machine.Verdict(if d == AsWritten then st.x else if i == 3 then 9 else 7)
  {
    var p := TwoPaths(a);
    DecodeEncode(RetK);
    RunReturns(d, p, i, RetK, st, if d == AsWritten then st.x else p[i].k, pkt);
  }

  /** The filter machine returns 9 when `a > 1` and 7 otherwise; read as
      written, both edges of the jump go to `ret #9`, which returns `X`,
      still 0. */
  lemma TwoPathsMachine(d: Dialect, a: bv32, pkt: seq<bv8>)
    ensures Machine.Run(d, TwoPaths(a), pkt) == Machine.Verdict(if d == AsWritten then 0 else if a > 1 then 9 else 7)
  {
    var p := TwoPaths(a);
    DecodeEncode(LdImm);
    var st := Machine.Initial.(a := a);
    RunContinues(d, p, 0, LdImm, Machine.Initial, st, pkt);
    var jgt := Jcond(Jgt, SrcK);
    DecodeEncode(jgt);
    var t := if d == AsWritten || a > 1 then 3 else 2;
    assert Machine.Step(d, jgt, p[1], 1, st, pkt) == Machine.Jump(t, st);
    RunJumps(d, p, 1, jgt, st, t, st, pkt);
    TwoPathsReturn(d, a, t, st, pkt);
  }

  /** Every instruction of the program translates. */
  lemma TwoPathsLowers(d: Dialect, a: bv32)
    ensures LowersUpTo(d, TwoPaths(a), 4)
  {
    var p := TwoPaths(a);
    InsnLowers(d, LdImm, p[0], 0, 4);
    LowersOneMore(d, p, 0);
    InsnLowers(d, Jcond(Jgt, SrcK), p[1], 1, 4);
    LowersOneMore(d, p, 1);
    InsnLowers(d, RetK, p[2], 2, 4);
    LowersOneMore(d, p, 2);
    InsnLowers(d, RetK, p[3], 3, 4);
    LowersOneMore(d, p, 3);
  }

  /** The generated function for the two-path program converts and returns
      9 when `a > 1` and 7 otherwise once corrected, and 0 on every packet as
      written. */
  lemma TwoPathsConverts(d: Dialect, a: bv32, pkt: seq<bv8>, a0: bv32, x0: bv32)
    ensures Convert(d, TwoPaths(a)).Success?
    ensures Ir.Forward(Convert(d, TwoPaths(a)).value)
    ensures Interp.Run(d, Convert(d, TwoPaths(a)).value, pkt, a0, x0)
         == Machine.Verdict(if d == AsWritten then 0 else if a > 1 then 9 else 7)
  {
    TwoPathsLowers(d, a);
    ReturnClass(RetK);
    Converts(d, TwoPaths(a));
    ConvertPreservesMeaning(d, TwoPaths(a), pkt, a0, x0);
    TwoPathsMachine(d, a, pkt);
  }

  /** `ld M[0]; ld #5; ret a`: the first load reads a scratch word that was
      never written. */
  function ScratchFirst(): seq<BpfInsn> {
    [Insn(LdMem, 0, 0, 0), Insn(LdImm, 0, 0, 5), Insn(RetA, 0, 0, 0)]
  }

  /** From the second instruction on, the program returns 5 whatever the
      registers and the scratch memory hold. */
  lemma ScratchFirstFrom1(d: Dialect, st: Machine.State, pkt: seq<bv8>)
    ensures Machine.RunFrom(d, ScratchFirst(), 1, st, pkt) == Machine.Verdict(5)
  {
    DecodeEncode(LdImm);
    DecodeEncode(RetA);
    var st' := st.(a := 5);
    RunContinues(d, ScratchFirst(), 1, LdImm, st, st', pkt);
    RunReturns(d, ScratchFirst(), 2, RetA, st', 5, pkt);
  }

  /** The model stops at the unwritten read and gives the program no
      verdict, where LLVM's undef value is overwritten before it matters. */
  lemma ScratchFirstHasNoVerdict(d: Dialect, pkt: seq<bv8>)
    ensures Machine.Run(d, ScratchFirst(), pkt) == Machine.Undefined
  {
    DecodeEncode(LdMem);
  }
}
