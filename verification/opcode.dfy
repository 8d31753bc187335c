/** Classic BPF instructions and their opcode fields. The field extractors
    use the standard `<net/bpf.h>` masks (they come from the `cbpf` crate,
    which is not part of this model); `Decode` names the instruction a code
    denotes for the translator, accepting exactly the bit patterns
    `convert_insn` in `src/lib.rs` translates or rejects as unsupported, and
    `Encode` gives each instruction its canonical `<net/bpf.h>` code. */
module Opcode {
  import opened Results

  /** One filter instruction: opcode, the two conditional-jump offsets, and the
      generic operand `k`. */
  datatype BpfInsn = BpfInsn(code: bv16, jt: bv8, jf: bv8, k: bv32)

  // Instruction classes (`code & 0x07`).
  const BPF_LD: bv16 := 0x00
  const BPF_LDX: bv16 := 0x01
  const BPF_ST: bv16 := 0x02
  const BPF_STX: bv16 := 0x03
  const BPF_ALU: bv16 := 0x04
  const BPF_JMP: bv16 := 0x05
  const BPF_RET: bv16 := 0x06
  const BPF_MISC: bv16 := 0x07

  // Load sizes (`code & 0x18`).
  const BPF_W: bv16 := 0x00
  const BPF_H: bv16 := 0x08
  const BPF_B: bv16 := 0x10

  // Load addressing modes (`code & 0xe0`).
  const BPF_IMM: bv16 := 0x00
  const BPF_ABS: bv16 := 0x20
  const BPF_IND: bv16 := 0x40
  const BPF_MEM: bv16 := 0x60
  const BPF_LEN: bv16 := 0x80
  const BPF_MSH: bv16 := 0xa0

  // ALU and jump operations (`code & 0xf0`).
  const BPF_ADD: bv16 := 0x00
  const BPF_SUB: bv16 := 0x10
  const BPF_MUL: bv16 := 0x20
  const BPF_DIV: bv16 := 0x30
  const BPF_OR: bv16 := 0x40
  const BPF_AND: bv16 := 0x50
  const BPF_LSH: bv16 := 0x60
  const BPF_RSH: bv16 := 0x70
  const BPF_NEG: bv16 := 0x80
  const BPF_MOD: bv16 := 0x90
  const BPF_XOR: bv16 := 0xa0
  const BPF_JA: bv16 := 0x00
  const BPF_JEQ: bv16 := 0x10
  const BPF_JGT: bv16 := 0x20
  const BPF_JGE: bv16 := 0x30
  const BPF_JSET: bv16 := 0x40

  // Operand sources (`code & 0x08`) and return values (`code & 0x18`).
  const BPF_K: bv16 := 0x00
  const BPF_X: bv16 := 0x08
  const BPF_A: bv16 := 0x10

  // Miscellaneous operations (`code & 0xf8`).
  const BPF_TAX: bv16 := 0x00
  const BPF_TXA: bv16 := 0x80

  /** Number of words of scratch memory. */
  const BPF_MEMWORDS: nat := 16

  function BpfClass(code: bv16): bv16 { code & 0x07 }
  function BpfSize(code: bv16): bv16 { code & 0x18 }
  function BpfMode(code: bv16): bv16 { code & 0xe0 }
  function BpfOp(code: bv16): bv16 { code & 0xf0 }
  function BpfSrc(code: bv16): bv16 { code & 0x08 }
  function BpfRval(code: bv16): bv16 { code & 0x18 }
  function BpfMiscop(code: bv16): bv16 { code & 0xf8 }

  /** Where a jump at position `idx` lands when it skips `off`
      instructions: jumps are relative to the next instruction, so they only
      go forward. */
  function JumpTarget(idx: nat, off: bv32): (t: nat)
    ensures idx < t
  {
    idx + 1 + off as int
  }

  /** The same for the 8-bit offsets `jt` and `jf` of a conditional jump. */
  function BranchTarget(idx: nat, off: bv8): nat {
    JumpTarget(idx, off as bv32)
  }

  /** Width of a packet load. */
  datatype Width = W | H | B

  /** Operand of an ALU operation or a conditional jump: the constant `k` or
      the index register. */
  datatype Src = SrcK | SrcX

  datatype JmpOp = Jgt | Jge | Jeq | Jset

  datatype AluOp = Add | Sub | Mul | Div | Mod | And | Or | Xor | Lsh | Rsh

  /** The instructions of the filter machine, named as bpf(4) names them. */
  datatype Op =
    | LdAbs(width: Width)            // A <- P[k:width]
    | LdInd(width: Width)            // A <- P[X+k:width]
    | LdLen                          // A <- len
    | LdImm                          // A <- k
    | LdMem                          // A <- M[k]
    | LdxImm                         // X <- k
    | LdxMem                         // X <- M[k]
    | LdxLen                         // X <- len
    | LdxMsh                         // X <- 4*(P[k:1]&0xf)
    | St                             // M[k] <- A
    | Stx                            // M[k] <- X
    | Ja                             // pc += k
    | Jcond(jop: JmpOp, src: Src)    // pc += (A op src) ? jt : jf
    | Alu(aop: AluOp, src: Src)      // A <- A op src
    | Neg                            // A <- -A
    | Tax                            // X <- A
    | Txa                            // A <- X
    | RetA                           // accept A bytes
    | RetK                           // accept k bytes

  function WidthOf(size: bv16): Option<Width> {
    if size == BPF_W then Some(W)
    else if size == BPF_H then Some(H)
    else if size == BPF_B then Some(B)
    else None
  }

  function SrcOf(code: bv16): Src {
    if BpfSrc(code) == BPF_K then SrcK else SrcX
  }

  function JmpOpOf(op: bv16): Option<JmpOp> {
    if op == BPF_JGT then Some(Jgt)
    else if op == BPF_JGE then Some(Jge)
    else if op == BPF_JEQ then Some(Jeq)
    else if op == BPF_JSET then Some(Jset)
    else None
  }

  function AluOpOf(op: bv16): Option<AluOp> {
    if op == BPF_ADD then Some(Add)
    else if op == BPF_SUB then Some(Sub)
    else if op == BPF_MUL then Some(Mul)
    else if op == BPF_DIV then Some(Div)
    else if op == BPF_MOD then Some(Mod)
    else if op == BPF_AND then Some(And)
    else if op == BPF_OR then Some(Or)
    else if op == BPF_XOR then Some(Xor)
    else if op == BPF_LSH then Some(Lsh)
    else if op == BPF_RSH then Some(Rsh)
    else None
  }

  /** The instruction a code denotes, dispatching on the fields exactly as the
      translator does; `None` for every pattern it rejects as invalid. Bits
      outside a class's fields are ignored, so many codes denote one
      instruction. */
  function Decode(code: bv16): Option<Op> {
    var cls := BpfClass(code);
    if cls == BPF_RET then
      if BpfRval(code) == BPF_A then Some(RetA)
      else if BpfRval(code) == BPF_K then Some(RetK)
      else None
    else if cls == BPF_LD then
      var size, mode := BpfSize(code), BpfMode(code);
      if mode == BPF_ABS || mode == BPF_IND then
        match WidthOf(size)
        case None => None
        case Some(w) => Some(if mode == BPF_IND then LdInd(w) else LdAbs(w))
      else if size == BPF_W && mode == BPF_LEN then Some(LdLen)
      else if size == BPF_W && mode == BPF_IMM then Some(LdImm)
      else if size == BPF_W && mode == BPF_MEM then Some(LdMem)
      else None
    else if cls == BPF_LDX then
      var size, mode := BpfSize(code), BpfMode(code);
      if size == BPF_W && mode == BPF_LEN then Some(LdxLen)
      else if size == BPF_B && mode == BPF_MSH then Some(LdxMsh)
      else if size == BPF_W && mode == BPF_IMM then Some(LdxImm)
      else if size == BPF_W && mode == BPF_MEM then Some(LdxMem)
      else None
    else if cls == BPF_ST then Some(St)
    else if cls == BPF_STX then Some(Stx)
    else if cls == BPF_JMP then
      if BpfOp(code) == BPF_JA then Some(Ja)
      else
        match JmpOpOf(BpfOp(code))
        case None => None
        case Some(j) => Some(Jcond(j, SrcOf(code)))
    else if cls == BPF_ALU then
      if BpfOp(code) == BPF_NEG then Some(Neg)
      else
        match AluOpOf(BpfOp(code))
        case None => None
        case Some(a) => Some(Alu(a, SrcOf(code)))
    else if BpfMiscop(code) == BPF_TAX then Some(Tax)
    else if BpfMiscop(code) == BPF_TXA then Some(Txa)
    else None
  }

  function WidthBits(w: Width): bv16 {
    match w
    case W => BPF_W
    case H => BPF_H
    case B => BPF_B
  }

  function SrcBits(s: Src): bv16 {
    match s
    case SrcK => BPF_K
    case SrcX => BPF_X
  }

  function JmpOpBits(j: JmpOp): bv16 {
    match j
    case Jgt => BPF_JGT
    case Jge => BPF_JGE
    case Jeq => BPF_JEQ
    case Jset => BPF_JSET
  }

  function AluOpBits(a: AluOp): bv16 {
    match a
    case Add => BPF_ADD
    case Sub => BPF_SUB
    case Mul => BPF_MUL
    case Div => BPF_DIV
    case Mod => BPF_MOD
    case And => BPF_AND
    case Or => BPF_OR
    case Xor => BPF_XOR
    case Lsh => BPF_LSH
    case Rsh => BPF_RSH
  }

  /** The canonical `<net/bpf.h>` code of an instruction (`BPF_LD|BPF_W|BPF_ABS`
      and so on); the codes the translator's own tests are written with. */
  function Encode(op: Op): bv16 {
    match op
    case LdAbs(w) => BPF_LD | WidthBits(w) | BPF_ABS
    case LdInd(w) => BPF_LD | WidthBits(w) | BPF_IND
    case LdLen => BPF_LD | BPF_W | BPF_LEN
    case LdImm => BPF_LD | BPF_W | BPF_IMM
    case LdMem => BPF_LD | BPF_W | BPF_MEM
    case LdxImm => BPF_LDX | BPF_W | BPF_IMM
    case LdxMem => BPF_LDX | BPF_W | BPF_MEM
    case LdxLen => BPF_LDX | BPF_W | BPF_LEN
    case LdxMsh => BPF_LDX | BPF_B | BPF_MSH
    case St => BPF_ST
    case Stx => BPF_STX
    case Ja => BPF_JMP | BPF_JA
    case Jcond(j, s) => BPF_JMP | JmpOpBits(j) | SrcBits(s)
    case Alu(a, s) => BPF_ALU | AluOpBits(a) | SrcBits(s)
    case Neg => BPF_ALU | BPF_NEG
    case Tax => BPF_MISC | BPF_TAX
    case Txa => BPF_MISC | BPF_TXA
    case RetA => BPF_RET | BPF_A
    case RetK => BPF_RET | BPF_K
  }

  /** Decoding the canonical code of an instruction gives the instruction back,
      so `Encode` is injective and every instruction is reachable by a code. */
  lemma DecodeEncode(op: Op)
    ensures Decode(Encode(op)) == Some(op)
  {
    match op
    case LdAbs(w) => assert WidthOf(WidthBits(w)) == Some(w);
    case LdInd(w) => assert WidthOf(WidthBits(w)) == Some(w);
    case Jcond(j, s) => assert JmpOpOf(JmpOpBits(j)) == Some(j);
    case Alu(a, s) => assert AluOpOf(AluOpBits(a)) == Some(a);
    case _ =>
  }

  /** Only the low byte of a code carries meaning. */
  lemma DecodeIgnoresHighByte(code: bv16)
    ensures Decode(code) == Decode(code & 0xff)
  {
  }
}
