/** The translator of `src/lib.rs` (`Converter::convert` and
    `convert_insn`), with the LLVM builder replaced by a pure `Builder`
    value and every `panic!` by a `Failure`. The translation makes one pass
    over the program: it lays out the entry block and one empty block per
    instruction, then for each instruction closes the previous block with a
    branch if it does not already end in a terminator, positions the builder
    at the instruction's own block, emits the uniform loads of `A` and `X`,
    and emits the instruction's body. The finished function must then pass
    the module verifier. */
module Translate {
  import opened Results
  import opened Opcode
  import opened Dialects
  import opened Ir

  /** Why a conversion aborts. */
  datatype Error =
    | InvalidRval                 // RET with neither A nor K as return value
    | NotSupported                // LD or LDX in LEN mode
    | InvalidLdInstruction        // any other LD/LDX size and mode pair
    | InvalidLdSize               // ABS or IND load with the unused size 0x18 (`unreachable!()`)
    | TargetOutOfRange(target: int) // a branch to a block that does not exist (index out of bounds)
    | InvalidSrc
    | InvalidJmpCondition
    | InvalidAluOp
    | InvalidMiscOp
    | InvalidInstruction
    | VerifyFailed                // the finished module fails the module verifier

  /** The operand `k` or `X` of an ALU operation or conditional jump. */
  function SrcOperand(insn: BpfInsn): Result<Val, Error> {
    if BpfSrc(insn.code) == BPF_K then Success(Const(insn.k))
    else if BpfSrc(insn.code) == BPF_X then Success(LoadedX)
    else Failure(InvalidSrc)
  }

  /** The `icmp` that decides a conditional jump. */
  function JumpCond(d: Dialect, code: bv16, src: Val): Result<Cond, Error> {
    var op := BpfOp(code);
    if op == BPF_JSET then
      Success(ICmp(if d == AsWritten then Sgt else Ne, Bin(Ir.And, LoadedA, src), Const(0)))
    else if op == BPF_JGT then Success(ICmp(if d == AsWritten then Sgt else Ugt, LoadedA, src))
    else if op == BPF_JGE then Success(ICmp(if d == AsWritten then Sge else Uge, LoadedA, src))
    else if op == BPF_JEQ then Success(ICmp(Eq, LoadedA, src))
    else Failure(InvalidJmpCondition)
  }

  function LowerJump(d: Dialect, insn: BpfInsn, idx: nat, n: nat): (r: Result<Inst, Error>)
    ensures r.Success? ==> r.value.IsTerminator()
    ensures r.Success? ==> forall t :: t in r.value.Targets() ==> idx < t < n
  {
    if BpfOp(insn.code) == BPF_JA then
      var t := JumpTarget(idx, insn.k);
      if t < n then Success(Br(t)) else Failure(TargetOutOfRange(t))
    else
      var onTrue := BranchTarget(idx, insn.jt);
      var onFalse := BranchTarget(idx, if d == AsWritten then insn.jt else insn.jf);
      if onTrue >= n then Failure(TargetOutOfRange(onTrue))
      else if onFalse >= n then Failure(TargetOutOfRange(onFalse))
      else
        match SrcOperand(insn)
        case Failure(e) => Failure(e)
        case Success(src) =>
          var cond :- JumpCond(d, insn.code, src);
          Success(CondBr(cond, onTrue, onFalse))
  }

  /** The IR instruction for a BPF ALU operation. */
  function AluInst(d: Dialect, op: bv16): Result<BinOp, Error> {
    if op == BPF_ADD then Success(Ir.Add)
    else if op == BPF_SUB then Success(Ir.Sub)
    else if op == BPF_MUL then Success(Ir.Mul)
    else if op == BPF_DIV then Success(if d == AsWritten then SDiv else UDiv)
    else if op == BPF_MOD then Success(if d == AsWritten then SRem else URem)
    else if op == BPF_AND then Success(Ir.And)
    else if op == BPF_OR then Success(Ir.Or)
    else if op == BPF_XOR then Success(Ir.Xor)
    else if op == BPF_LSH then Success(Shl)
    else if op == BPF_RSH then Success(if d == AsWritten then AShr else LShr)
    else Failure(InvalidAluOp)
  }

  function LowerAlu(d: Dialect, insn: BpfInsn): Result<Inst, Error> {
    if BpfOp(insn.code) == BPF_NEG then Success(StoreA(Ir.Neg(LoadedA)))
    else
      match SrcOperand(insn)
      case Failure(e) => Failure(e)
      case Success(src) =>
        var op :- AluInst(d, BpfOp(insn.code));
        Success(StoreA(Bin(op, LoadedA, src)))
  }

  /** The body `convert_insn` emits for instruction `insn` at position `idx`
      of an `n`-instruction program, after the uniform loads. Each
      instruction becomes one IR instruction; jumps and returns become the
      block's terminator, everything else a store. */
  function Lower(d: Dialect, insn: BpfInsn, idx: nat, n: nat): (r: Result<Inst, Error>)
    ensures r.Success? ==> forall t :: t in r.value.Targets() ==> idx < t < n
    ensures r.Success? ==>
      (r.value.IsTerminator() <==> BpfClass(insn.code) == BPF_RET || BpfClass(insn.code) == BPF_JMP)
  {
    var code, k := insn.code, insn.k;
    var cls := BpfClass(code);
    if cls == BPF_RET then
      if BpfRval(code) == BPF_A then Success(Ret(LoadedA))
      else if BpfRval(code) == BPF_K then Success(Ret(if d == AsWritten then LoadedX else Const(k)))
      else Failure(InvalidRval)
    else if cls == BPF_LD then
      var size, mode := BpfSize(code), BpfMode(code);
      if mode == BPF_ABS || mode == BPF_IND then
        var off := if mode == BPF_IND then Bin(Ir.Add, LoadedX, Const(k)) else Const(k);
        if size == BPF_W then Success(StoreA(Call(Ldw, off)))
        else if size == BPF_H then Success(StoreA(Call(Ldh, off)))
        else if size == BPF_B then Success(StoreA(Call(Ldb, off)))
        else Failure(InvalidLdSize)
      else if size == BPF_W && mode == BPF_LEN then Failure(NotSupported)
      else if size == BPF_W && mode == BPF_IMM then Success(StoreA(Const(k)))
      else if size == BPF_W && mode == BPF_MEM then Success(StoreA(MemAt(k)))
      else Failure(InvalidLdInstruction)
    else if cls == BPF_LDX then
      var size, mode := BpfSize(code), BpfMode(code);
      if size == BPF_W && mode == BPF_LEN then Failure(NotSupported)
      else if size == BPF_B && mode == BPF_MSH then Success(StoreX(Call(Msh, Const(k))))
      else if size == BPF_W && mode == BPF_IMM then Success(StoreX(Const(k)))
      else if size == BPF_W && mode == BPF_MEM then Success(StoreX(MemAt(k)))
      else Failure(InvalidLdInstruction)
    else if cls == BPF_ST || cls == BPF_STX then
      Success(StoreMem(k, if cls == BPF_ST then LoadedA else LoadedX))
    else if cls == BPF_JMP then LowerJump(d, insn, idx, n)
    else if cls == BPF_ALU then LowerAlu(d, insn)
    else if cls == BPF_MISC then
      if BpfMiscop(code) == BPF_TAX then Success(StoreX(LoadedA))
      else if BpfMiscop(code) == BPF_TXA then Success(StoreA(LoadedX))
      else Failure(InvalidMiscOp)
    else Failure(InvalidInstruction)
  }

  /** Where the builder appends. */
  datatype Cursor = AtEntry | AtBlock(index: nat)

  /** The function under construction and the builder's insertion point. */
  datatype Builder = Builder(entry: seq<Inst>, blocks: seq<seq<Inst>>, cursor: Cursor) {
    predicate Valid() {
      cursor.AtBlock? ==> cursor.index < |blocks|
    }
  }

  /** Appends an instruction at the insertion point. */
  function Emit(b: Builder, inst: Inst): (r: Builder)
    requires b.Valid()
    ensures r.Valid() && r.cursor == b.cursor && |r.blocks| == |b.blocks|
  {
    match b.cursor
    case AtEntry => b.(entry := b.entry + [inst])
    case AtBlock(j) => b.(blocks := b.blocks[j := b.blocks[j] + [inst]])
  }

  /** `emit_prolog`: stack slots for `A`, `X` and the `BPF_MEMWORDS`-word
      scratch array, and zero stored into `A` and `X` (the scratch array is
      left uninitialised). */
  function Prolog(): seq<Inst> {
    [AllocaA, AllocaX, AllocaMem(BPF_MEMWORDS), StoreA(Const(0)), StoreX(Const(0))]
  }

  /** `emit_prolog` then `create_basic_blocks(n)`: the entry block holds the
      prolog and is the insertion point; `n` empty instruction blocks follow. */
  function Setup(n: nat): (b: Builder)
    ensures b.Valid()
  {
    Builder(Prolog(), seq(n, _ => []), AtEntry)
  }

  /** `convert_insn`: close the previous block if it is unterminated (or
      branch from the entry block into the first instruction), move to block
      `idx`, emit the loads of `A` and `X`, then the instruction's body. */
  function ConvertInsn(d: Dialect, b: Builder, insn: BpfInsn, idx: nat): (r: Result<Builder, Error>)
    requires b.Valid() && idx < |b.blocks|
    ensures r.Success? <==> Lower(d, insn, idx, |b.blocks|).Success?
    ensures r.Success? ==> r.value.Valid() && |r.value.blocks| == |b.blocks| && r.value.cursor == AtBlock(idx)
  {
    var closed :=
      if idx >= 1 then
        if EndsInTerminator(b.blocks[idx - 1]) then b else Emit(b, Br(idx))
      else Emit(b, Br(idx));
    var positioned := closed.(cursor := AtBlock(idx));
    var preamble := Emit(Emit(positioned, LoadA), LoadX);
    var inst :- Lower(d, insn, idx, |b.blocks|);
    Success(Emit(preamble, inst))
  }

  /** The translation loop, from instruction `i` on. */
  function ConvertFrom(d: Dialect, insns: seq<BpfInsn>, i: nat, b: Builder): (r: Result<Builder, Error>)
    requires b.Valid() && |b.blocks| == |insns| && i <= |insns|
    ensures r.Success? ==> |r.value.blocks| == |insns|
    decreases |insns| - i
  {
    if i == |insns| then Success(b)
    else
      var b' :- ConvertInsn(d, b, insns[i], i);
      ConvertFrom(d, insns, i + 1, b')
  }

  /** The function `convert` builds, before the module verifier sees it. */
  function Build(d: Dialect, insns: seq<BpfInsn>): Result<Cfg, Error> {
    var b :- ConvertFrom(d, insns, 0, Setup(|insns|));
    Success(Cfg(b.entry, b.blocks))
  }

  /** `convert`: build the function and run the module verifier on it. */
  function Convert(d: Dialect, insns: seq<BpfInsn>): Result<Cfg, Error> {
    var cfg :- Build(d, insns);
    if WellFormed(cfg) then Success(cfg) else Failure(VerifyFailed)
  }
}
