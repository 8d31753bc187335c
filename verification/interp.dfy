/** A reference interpreter for the abstract IR: what the generated `main`
    computes when called on a packet. The stack slots `A`, `X` and `MEM` are
    the fields of a `Machine.State`; the values a block's `load A` and
    `load X` produce live in a `Frame` until the block ends. Where
    LLVM gives no defined result (undefined behaviour, and also a poison or
    undef value, which the model does not carry along) or a block ends
    without a terminator, the run is `Stuck` and has no verdict. The dialect chooses the helper
    library linked into the module. */
module Interp {
  import opened Results
  import opened Word
  import opened Util
  import opened Ir
  import opened Dialects
  import Machine

  /** The values loaded at the top of the current block. */
  datatype Frame = Frame(a: Option<bv32>, x: Option<bv32>)

  /** A block starts with nothing loaded. */
  const Unloaded: Frame := Frame(None, None)

  /** A call `helper(packet, offset)`; the offset is a C `int`, and the
      helper's read is undefined unless it lies in the packet. */
  function CallHelper(lib: Dialect, h: Helper, pkt: seq<bv8>, off: bv32): Option<bv32> {
    var o := Signed(off);
    match h
    case Ldw => if InBounds(pkt, o, 4) then Some(Util.Ldw(pkt, o)) else None
    case Ldh =>
      if !InBounds(pkt, o, 2) then None
      else if lib == AsWritten then Some(Util.Ldh(pkt, o))
      else Some(LdhNet(pkt, o))
    case Ldb => if InBounds(pkt, o, 1) then Some(Util.Ldb(pkt, o)) else None
    case Msh => if InBounds(pkt, o, 1) then Some(Util.Msh(pkt, o)) else None
  }

  function EvalBin(op: BinOp, a: bv32, b: bv32): Option<bv32> {
    match op
    case Add => Some(Word.Add(a, b))
    case Sub => Some(a - b)
    case Mul => Some(Word.Mul(a, b))
    case SDiv => Word.SDiv(a, b)
    case SRem => Word.SRem(a, b)
    case UDiv => Word.UDiv(a, b)
    case URem => Word.URem(a, b)
    case And => Some(a & b)
    case Or => Some(a | b)
    case Xor => Some(a ^ b)
    case Shl => Word.Shl(a, b)
    case AShr => Word.AShr(a, b)
    case LShr => Word.LShr(a, b)
  }

  predicate Compare(p: Pred, a: bv32, b: bv32) {
    match p
    case Eq => a == b
    case Ne => a != b
    case Sgt => SignedGreater(a, b)
    case Sge => SignedGreaterEq(a, b)
    case Ugt => a > b
    case Uge => a >= b
  }

  function Eval(lib: Dialect, v: Val, st: Machine.State, fr: Frame, pkt: seq<bv8>): Option<bv32> {
    match v
    case Const(k) => Some(k)
    case LoadedA => fr.a
    case LoadedX => fr.x
    case MemAt(i) => Machine.MemRead(st, i)
    case Call(h, off) =>
      (match Eval(lib, off, st, fr, pkt)
       case None => None
       case Some(o) => CallHelper(lib, h, pkt, o))
    case Bin(op, l, r) =>
      (match (Eval(lib, l, st, fr, pkt), Eval(lib, r, st, fr, pkt))
       case (Some(a), Some(b)) => EvalBin(op, a, b)
       case _ => None)
    case Neg(u) =>
      (match Eval(lib, u, st, fr, pkt)
       case None => None
       case Some(a) => Some(Negate(a)))
  }

  function Test(lib: Dialect, c: Cond, st: Machine.State, fr: Frame, pkt: seq<bv8>): Option<bool> {
    match (Eval(lib, c.lhs, st, fr, pkt), Eval(lib, c.rhs, st, fr, pkt))
    case (Some(a), Some(b)) => Some(Compare(c.pred, a, b))
    case _ => None
  }

  /** How control leaves a block. */
  datatype Exit = Goto(target: nat, st: Machine.State) | Return(verdict: bv32) | Stuck

  /** The effect of one instruction: go on with the next one, or leave the block. */
  datatype InstEffect = Proceed(st: Machine.State, fr: Frame) | Leave(exit: Exit)

  function ExecInst(lib: Dialect, inst: Inst, st: Machine.State, fr: Frame, pkt: seq<bv8>): (r: InstEffect)
    ensures r.Leave? && r.exit.Goto? ==> r.exit.target in inst.Targets()
    ensures r.Proceed? ==> !inst.IsTerminator()
  {
    match inst
    case AllocaA => Proceed(st, fr)
    case AllocaX => Proceed(st, fr)
    case AllocaMem(_) => Proceed(st, fr)
    case LoadA => Proceed(st, fr.(a := Some(st.a)))
    case LoadX => Proceed(st, fr.(x := Some(st.x)))
    case StoreA(v) =>
      (match Eval(lib, v, st, fr, pkt)
       case None => Leave(Stuck)
       case Some(w) => Proceed(st.(a := w), fr))
    case StoreX(v) =>
      (match Eval(lib, v, st, fr, pkt)
       case None => Leave(Stuck)
       case Some(w) => Proceed(st.(x := w), fr))
    case StoreMem(i, v) =>
      (match Eval(lib, v, st, fr, pkt)
       case None => Leave(Stuck)
       case Some(w) =>
         match Machine.MemWrite(st, i, w)
         case None => Leave(Stuck)
         case Some(st') => Proceed(st', fr))
    case Br(t) => Leave(Goto(t, st))
    case CondBr(c, t, f) =>
      (match Test(lib, c, st, fr, pkt)
       case None => Leave(Stuck)
       case Some(b) => Leave(Goto(if b then t else f, st)))
    case Ret(v) =>
      (match Eval(lib, v, st, fr, pkt)
       case None => Leave(Stuck)
       case Some(w) => Leave(Return(w)))
  }

  /** Executes a block from its first instruction to its terminator. */
  function ExecInsts(lib: Dialect, insts: seq<Inst>, st: Machine.State, fr: Frame, pkt: seq<bv8>): (e: Exit)
    ensures e.Goto? ==> e.target in TargetsOf(insts)
    decreases |insts|
  {
    if |insts| == 0 then Stuck
    else
      match ExecInst(lib, insts[0], st, fr, pkt)
      case Proceed(st', fr') => ExecInsts(lib, insts[1..], st', fr', pkt)
      case Leave(e) => e
  }

  /** Runs instruction block `j` and the blocks control reaches from it. */
  function RunFrom(lib: Dialect, cfg: Cfg, j: nat, st: Machine.State, pkt: seq<bv8>): Machine.Outcome
    requires Forward(cfg)
    decreases |cfg.blocks| - j
  {
    if j >= |cfg.blocks| then Machine.Undefined
    else
      match ExecInsts(lib, cfg.blocks[j], st, Unloaded, pkt)
      case Goto(t, st') => RunFrom(lib, cfg, t, st', pkt)
      case Return(v) => Machine.Verdict(v)
      case Stuck => Machine.Undefined
  }

  /** Calls the generated function on a packet. `a0` and `x0` are whatever
      the stack slots of `A` and `X` hold before the entry block runs; the
      scratch memory starts unwritten. */
  function Run(lib: Dialect, cfg: Cfg, pkt: seq<bv8>, a0: bv32, x0: bv32): Machine.Outcome
    requires Forward(cfg)
  {
    match ExecInsts(lib, cfg.entry, Machine.State(a0, x0, map[]), Unloaded, pkt)
    case Goto(t, st) => RunFrom(lib, cfg, t, st, pkt)
    case Return(v) => Machine.Verdict(v)
    case Stuck => Machine.Undefined
  }
}
