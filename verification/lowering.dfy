/** `convert_insn` restated on decoded instructions: what each instruction of
    the filter machine becomes. The translator itself dispatches on the bit
    fields of the opcode; `LowerIsLowerOp` shows the two agree, so the
    translator's behaviour can be read off this table: which instructions it
    rejects, with which error, and what it emits for the rest. */
module Lowering {
  import opened Results
  import opened Opcode
  import opened Dialects
  import opened Ir
  import opened Translate

  function HelperFor(w: Width): Helper {
    match w
    case W => Ldw
    case H => Ldh
    case B => Ldb
  }

  function SrcVal(s: Src, k: bv32): Val {
    match s
    case SrcK => Const(k)
    case SrcX => LoadedX
  }

  /** The comparison a conditional jump branches on. */
  function CondFor(d: Dialect, j: JmpOp, src: Val): Cond {
    match j
    case Jgt => ICmp(if d == AsWritten then Sgt else Ugt, LoadedA, src)
    case Jge => ICmp(if d == AsWritten then Sge else Uge, LoadedA, src)
    case Jeq => ICmp(Eq, LoadedA, src)
    case Jset => ICmp(if d == AsWritten then Sgt else Ne, Bin(Ir.And, LoadedA, src), Const(0))
  }

  function BinOpFor(d: Dialect, a: AluOp): BinOp {
    match a
    case Add => Ir.Add
    case Sub => Ir.Sub
    case Mul => Ir.Mul
    case Div => if d == AsWritten then SDiv else UDiv
    case Mod => if d == AsWritten then SRem else URem
    case And => Ir.And
    case Or => Ir.Or
    case Xor => Ir.Xor
    case Lsh => Shl
    case Rsh => if d == AsWritten then AShr else LShr
  }

  /** The IR for instruction `op` (operands from `insn`) at position `idx`
      of an `n`-instruction program. Only the two `LEN` loads and jumps past
      the last instruction are refused. */
  function LowerOp(d: Dialect, op: Op, insn: BpfInsn, idx: nat, n: nat): Result<Inst, Error> {
    var k := insn.k;
    match op
    case LdAbs(w) => Success(StoreA(Call(HelperFor(w), Const(k))))
    case LdInd(w) => Success(StoreA(Call(HelperFor(w), Bin(Ir.Add, LoadedX, Const(k)))))
    case LdLen => Failure(NotSupported)
    case LdImm => Success(StoreA(Const(k)))
    case LdMem => Success(StoreA(MemAt(k)))
    case LdxImm => Success(StoreX(Const(k)))
    case LdxMem => Success(StoreX(MemAt(k)))
    case LdxLen => Failure(NotSupported)
    case LdxMsh => Success(StoreX(Call(Msh, Const(k))))
    case St => Success(StoreMem(k, LoadedA))
    case Stx => Success(StoreMem(k, LoadedX))
    case Ja =>
      var t := JumpTarget(idx, k);
      if t < n then Success(Br(t)) else Failure(TargetOutOfRange(t))
    case Jcond(j, s) =>
      var onTrue := BranchTarget(idx, insn.jt);
      var onFalse := BranchTarget(idx, if d == AsWritten then insn.jt else insn.jf);
      if onTrue >= n then Failure(TargetOutOfRange(onTrue))
      else if onFalse >= n then Failure(TargetOutOfRange(onFalse))
      else Success(CondBr(CondFor(d, j, SrcVal(s, k)), onTrue, onFalse))
    case Alu(a, s) => Success(StoreA(Bin(BinOpFor(d, a), LoadedA, SrcVal(s, k))))
    case Neg => Success(StoreA(Ir.Neg(LoadedA)))
    case Tax => Success(StoreX(LoadedA))
    case Txa => Success(StoreA(LoadedX))
    case RetA => Success(Ret(LoadedA))
    case RetK => Success(Ret(if d == AsWritten then LoadedX else Const(k)))
  }

  /** Codes that decode to nothing are refused; the rest are translated as
      `LowerOp` says. */
  lemma LowerIsLowerOp(d: Dialect, insn: BpfInsn, idx: nat, n: nat)
    ensures Decode(insn.code).None? ==> Lower(d, insn, idx, n).Failure?
    ensures Decode(insn.code).Some? ==> Lower(d, insn, idx, n) == LowerOp(d, Decode(insn.code).value, insn, idx, n)
  {
    var cls := BpfClass(insn.code);
    if cls == BPF_RET {
      RetByOp(d, insn, idx, n);
    } else if cls == BPF_LD {
      LdByOp(d, insn, idx, n);
    } else if cls == BPF_LDX {
      LdxByOp(d, insn, idx, n);
    } else if cls == BPF_JMP {
      JmpByOp(d, insn, idx, n);
    } else if cls == BPF_ALU {
      AluByOp(d, insn, idx, n);
    }
  }

  lemma RetByOp(d: Dialect, insn: BpfInsn, idx: nat, n: nat)
    requires BpfClass(insn.code) == BPF_RET
    ensures Decode(insn.code).None? ==> Lower(d, insn, idx, n).Failure?
    ensures Decode(insn.code).Some? ==> Lower(d, insn, idx, n) == LowerOp(d, Decode(insn.code).value, insn, idx, n)
  {
  }

  lemma LdByOp(d: Dialect, insn: BpfInsn, idx: nat, n: nat)
    requires BpfClass(insn.code) == BPF_LD
    ensures Decode(insn.code).None? ==> Lower(d, insn, idx, n).Failure?
    ensures Decode(insn.code).Some? ==> Lower(d, insn, idx, n) == LowerOp(d, Decode(insn.code).value, insn, idx, n)
  {
  }

  lemma LdxByOp(d: Dialect, insn: BpfInsn, idx: nat, n: nat)
    requires BpfClass(insn.code) == BPF_LDX
    ensures Decode(insn.code).None? ==> Lower(d, insn, idx, n).Failure?
    ensures Decode(insn.code).Some? ==> Lower(d, insn, idx, n) == LowerOp(d, Decode(insn.code).value, insn, idx, n)
  {
  }

  lemma JmpByOp(d: Dialect, insn: BpfInsn, idx: nat, n: nat)
    requires BpfClass(insn.code) == BPF_JMP
    ensures Decode(insn.code).None? ==> Lower(d, insn, idx, n).Failure?
    ensures Decode(insn.code).Some? ==> Lower(d, insn, idx, n) == LowerOp(d, Decode(insn.code).value, insn, idx, n)
  {
  }

  lemma AluByOp(d: Dialect, insn: BpfInsn, idx: nat, n: nat)
    requires BpfClass(insn.code) == BPF_ALU
    ensures Decode(insn.code).None? ==> Lower(d, insn, idx, n).Failure?
    ensures Decode(insn.code).Some? ==> Lower(d, insn, idx, n) == LowerOp(d, Decode(insn.code).value, insn, idx, n)
  {
  }

  /** The source field is one bit wide and the class field three bits, so
      the translator's `InvalidSrc` and `InvalidInstruction` panics never
      fire; a code outside the table fails with one of the other errors. */
  lemma UnreachableErrors(d: Dialect, insn: BpfInsn, idx: nat, n: nat)
    ensures Lower(d, insn, idx, n) != Failure(InvalidSrc)
    ensures Lower(d, insn, idx, n) != Failure(InvalidInstruction)
  {
    assert BpfSrc(insn.code) == BPF_K || BpfSrc(insn.code) == BPF_X;
  }

  /** `JA` branches to block `idx + 1 + k`. A conditional jump branches to
      block `idx + 1 + jt` when taken and, as written, to the same block
      otherwise (`idx + 1 + jf` once corrected). A target past the last
      block aborts the conversion. */
  lemma JumpTargets(d: Dialect, insn: BpfInsn, idx: nat, n: nat)
    ensures Decode(insn.code) == Some(Ja) ==>
      var t := idx + 1 + insn.k as int;
      Lower(d, insn, idx, n) == if t < n then Success(Br(t)) else Failure(TargetOutOfRange(t))
    ensures Decode(insn.code).Some? && Decode(insn.code).value.Jcond? ==>
      var t := idx + 1 + insn.jt as int;
      var f := idx + 1 + (if d == AsWritten then insn.jt else insn.jf) as int;
      && (Lower(d, insn, idx, n).Success? <==> t < n && f < n)
      && (Lower(d, insn, idx, n).Success? ==>
            Lower(d, insn, idx, n).value.CondBr?
            && Lower(d, insn, idx, n).value.ifTrue == t
            && Lower(d, insn, idx, n).value.ifFalse == f)
  {
    LowerIsLowerOp(d, insn, idx, n);
  }
}
