/** The filter machine of bpf(4), as a reference semantics for the
    translator: accumulator `A`, index register `X`, scratch memory `M` of
    `BPF_MEMWORDS` words, and a read-only packet. Each step acts on a decoded
    instruction. Under the `AsWritten` dialect the machine is the one the
    generated code implements; under `Corrected` it is bpf(4)'s. What the
    generated code does not define makes the step `Fault`, and a run that
    faults has no verdict in the model. This covers LLVM's undefined
    behaviour (division by zero, INT_MIN / -1, `M[k]` with `k >= 16`, reading
    outside the packet), and also LLVM's poison and undef values (a shift
    amount of 32 or more, a scratch word never written), which the model
    refuses to follow even when the generated code would overwrite them
    before they could matter. */
module Machine {
  import opened Results
  import opened Word
  import opened Util
  import opened Opcode
  import opened Dialects

  /** The registers and scratch memory. A scratch word absent from `mem` has
      never been written. */
  datatype State = State(a: bv32, x: bv32, mem: map<nat, bv32>)

  /** What one instruction does: fall through to the next one, jump, return a
      verdict, or have no defined result. */
  datatype Effect = Continue(next: State) | Jump(target: nat, next: State) | Return(verdict: bv32) | Fault

  /** The result of running a filter on a packet: a verdict, or no verdict
      the model vouches for. */
  datatype Outcome = Verdict(value: bv32) | Undefined

  /** The state a filter starts in: both registers zero, scratch memory unwritten. */
  const Initial: State := State(0, 0, map[])

  /** `M[k]`, when `k` is a scratch index and the word has been written. */
  function MemRead(st: State, k: bv32): Option<bv32> {
    if k as int < BPF_MEMWORDS && k as int in st.mem then Some(st.mem[k as int]) else None
  }

  /** `M[k] <- v`, defined only for a scratch index. */
  function MemWrite(st: State, k: bv32, v: bv32): (r: Option<State>)
    ensures r.Some? <==> k as int < BPF_MEMWORDS
    ensures r.Some? ==> MemRead(r.value, k) == Some(v)
    ensures r.Some? ==> r.value.a == st.a && r.value.x == st.x
    ensures r.Some? ==> forall j :: j in st.mem && j != k as int ==> j in r.value.mem && r.value.mem[j] == st.mem[j]
  {
    if k as int < BPF_MEMWORDS then Some(st.(mem := st.mem[k as int := v])) else None
  }

  /** `P[off:width]`, as the dialect's helper library loads it. The offset is
      a signed `int`; the read is undefined unless all its bytes lie in the
      packet. */
  function PacketLoad(d: Dialect, w: Width, pkt: seq<bv8>, off: bv32): Option<bv32> {
    var o := Signed(off);
    match w
    case W => if InBounds(pkt, o, 4) then Some(NetWord(pkt, o)) else None
    case H =>
      if !InBounds(pkt, o, 2) then None
      else if d == AsWritten then Some(Word2(pkt[o + 1], pkt[o]))
      else Some(NetHalf(pkt, o))
    case B => if InBounds(pkt, o, 1) then Some(pkt[o] as bv32) else None
  }

  /** `4*(P[off:1]&0xf)`. */
  function HeaderLength(pkt: seq<bv8>, off: bv32): Option<bv32> {
    var o := Signed(off);
    if InBounds(pkt, o, 1) then Some(4 * ((pkt[o] & 0xf) as bv32)) else None
  }

  /** The packet length as a 32-bit word. */
  function LengthWord(pkt: seq<bv8>): bv32 {
    (|pkt| % 0x1_0000_0000) as bv32
  }

  function Operand(s: Src, insn: BpfInsn, st: State): bv32 {
    match s
    case SrcK => insn.k
    case SrcX => st.x
  }

  /** Whether a conditional jump is taken. bpf(4) compares unsigned and tests
      `A & src` against zero; the code compares signed and tests `A & src > 0`
      signed. */
  predicate Taken(d: Dialect, j: JmpOp, a: bv32, b: bv32) {
    match j
    case Jgt => if d == AsWritten then SignedGreater(a, b) else a > b
    case Jge => if d == AsWritten then SignedGreaterEq(a, b) else a >= b
    case Jeq => a == b
    case Jset => if d == AsWritten then SignedGreater(a & b, 0) else a & b != 0
  }

  /** `A op b`. Division, remainder and right shift are signed in the code and
      unsigned in bpf(4). */
  function AluResult(d: Dialect, op: AluOp, a: bv32, b: bv32): Option<bv32> {
    match op
    case Add => Some(Word.Add(a, b))
    case Sub => Some(a - b)
    case Mul => Some(Word.Mul(a, b))
    case Div => if d == AsWritten then SDiv(a, b) else UDiv(a, b)
    case Mod => if d == AsWritten then SRem(a, b) else URem(a, b)
    case And => Some(a & b)
    case Or => Some(a | b)
    case Xor => Some(a ^ b)
    case Lsh => Shl(a, b)
    case Rsh => if d == AsWritten then AShr(a, b) else LShr(a, b)
  }

  function SetA(r: Option<bv32>, st: State): Effect {
    match r
    case None => Fault
    case Some(v) => Continue(st.(a := v))
  }

  function SetX(r: Option<bv32>, st: State): Effect {
    match r
    case None => Fault
    case Some(v) => Continue(st.(x := v))
  }

  function SetMem(r: Option<State>): Effect {
    match r
    case None => Fault
    case Some(st) => Continue(st)
  }

  /** The effect of instruction `op` (with operands from `insn`) at position
      `idx`. Jumps are relative to the next instruction, so control only
      moves forward. */
  function Step(d: Dialect, op: Op, insn: BpfInsn, idx: nat, st: State, pkt: seq<bv8>): (e: Effect)
    ensures e.Jump? ==> idx < e.target && e.next == st
  {
    var k := insn.k;
    match op
    case LdAbs(w) => SetA(PacketLoad(d, w, pkt, k), st)
    case LdInd(w) => SetA(PacketLoad(d, w, pkt, Word.Add(st.x, k)), st)
    case LdLen => Continue(st.(a := LengthWord(pkt)))
    case LdImm => Continue(st.(a := k))
    case LdMem => SetA(MemRead(st, k), st)
    case LdxImm => Continue(st.(x := k))
    case LdxMem => SetX(MemRead(st, k), st)
    case LdxLen => Continue(st.(x := LengthWord(pkt)))
    case LdxMsh => SetX(HeaderLength(pkt, k), st)
    case St => SetMem(MemWrite(st, k, st.a))
    case Stx => SetMem(MemWrite(st, k, st.x))
    case Ja => Jump(JumpTarget(idx, k), st)
    case Jcond(j, s) =>
      var off := if Taken(d, j, st.a, Operand(s, insn, st)) || d == AsWritten then insn.jt else insn.jf;
      Jump(BranchTarget(idx, off), st)
    case Alu(op, s) => SetA(AluResult(d, op, st.a, Operand(s, insn, st)), st)
    case Neg => Continue(st.(a := Negate(st.a)))
    case Tax => Continue(st.(x := st.a))
    case Txa => Continue(st.(a := st.x))
    case RetA => Return(st.a)
    case RetK => Return(if d == AsWritten then st.x else k)
  }

  /** Instructions that write only `A`. */
  predicate WritesA(op: Op) {
    op.LdAbs? || op.LdInd? || op.LdLen? || op.LdImm? || op.LdMem? || op.Alu? || op.Neg? || op.Txa?
  }

  /** Instructions that write only `X`. */
  predicate WritesX(op: Op) {
    op.LdxImm? || op.LdxMem? || op.LdxLen? || op.LdxMsh? || op.Tax?
  }

  /** Loads into `A`, ALU operations and `TXA` change only `A`. */
  lemma StepWritesOnlyA(d: Dialect, op: Op, insn: BpfInsn, idx: nat, st: State, pkt: seq<bv8>)
    requires WritesA(op)
    ensures var e := Step(d, op, insn, idx, st, pkt);
      e.Continue? || e.Fault?
    ensures var e := Step(d, op, insn, idx, st, pkt);
      e.Continue? ==> e.next == st.(a := e.next.a)
  {
  }

  /** `LDX` and `TAX` change only `X`. */
  lemma StepWritesOnlyX(d: Dialect, op: Op, insn: BpfInsn, idx: nat, st: State, pkt: seq<bv8>)
    requires WritesX(op)
    ensures var e := Step(d, op, insn, idx, st, pkt);
      e.Continue? || e.Fault?
    ensures var e := Step(d, op, insn, idx, st, pkt);
      e.Continue? ==> e.next == st.(x := e.next.x)
  {
  }

  /** `ST` and `STX` change only the scratch word `k`, and fault exactly when
      `k` is no scratch index. */
  lemma StepWritesOnlyMem(d: Dialect, op: Op, insn: BpfInsn, idx: nat, st: State, pkt: seq<bv8>)
    requires op.St? || op.Stx?
    ensures var e := Step(d, op, insn, idx, st, pkt);
      e.Continue? <==> insn.k as int < BPF_MEMWORDS
    ensures var e := Step(d, op, insn, idx, st, pkt);
      e.Continue? ==> e.next == st.(mem := st.mem[insn.k as int := if op.St? then st.a else st.x])
  {
  }

  /** Jumps change no register and always jump; returns always return. */
  lemma StepControl(d: Dialect, op: Op, insn: BpfInsn, idx: nat, st: State, pkt: seq<bv8>)
    requires op.Ja? || op.Jcond? || op.RetA? || op.RetK?
    ensures var e := Step(d, op, insn, idx, st, pkt);
      (op.Ja? || op.Jcond? ==> e.Jump? && e.next == st) && (op.RetA? || op.RetK? ==> e.Return?)
  {
  }

  /** Runs the filter from instruction `i`. Running off the end of the
      program, or into a code that is no instruction, has no verdict. */
  function RunFrom(d: Dialect, insns: seq<BpfInsn>, i: nat, st: State, pkt: seq<bv8>): Outcome
    decreases |insns| - i
  {
    if i >= |insns| then Undefined
    else match Decode(insns[i].code)
      case None => Undefined
      case Some(op) =>
        match Step(d, op, insns[i], i, st, pkt)
        case Continue(st') => RunFrom(d, insns, i + 1, st', pkt)
        case Jump(t, st') => RunFrom(d, insns, t, st', pkt)
        case Return(v) => Verdict(v)
        case Fault => Undefined
  }

  /** The verdict of a filter on a packet. */
  function Run(d: Dialect, insns: seq<BpfInsn>, pkt: seq<bv8>): Outcome {
    RunFrom(d, insns, 0, Initial, pkt)
  }
}
