/** The abstract LLVM IR the translator emits, in place of the builder calls
    of `src/lib.rs`. A function body is an entry block plus one block per
    filter instruction; blocks are addressed by their instruction index.
    Values are expression trees: each tree stands for the chain of SSA
    instructions (`getelementptr`, `load`, `call`, arithmetic) the builder
    emits to compute it, every one of which is used at most once, by the
    next node of the tree. The loads of `A` and `X` at the top of each block
    are emitted whatever the instruction, and an unused one only reads a
    stack slot, so no tree holds it. */
module Ir {
  import opened Results

  /** The four helpers linked in from the utility module. */
  datatype Helper = Ldw | Ldh | Ldb | Msh

  /** LLVM binary instructions on i32. */
  datatype BinOp = Add | Sub | Mul | SDiv | SRem | UDiv | URem | And | Or | Xor | Shl | AShr | LShr

  /** LLVM `icmp` predicates. */
  datatype Pred = Eq | Ne | Sgt | Sge | Ugt | Uge

  datatype Val =
    | Const(k: bv32)                    // i32 constant
    | LoadedA                           // the block's `load A`
    | LoadedX                           // the block's `load X`
    | MemAt(index: bv32)                // load (getelementptr inbounds MEM, index)
    | Call(helper: Helper, offset: Val) // call helper(packet, offset)
    | Bin(op: BinOp, lhs: Val, rhs: Val)
    | Neg(arg: Val)                     // sub 0, arg

  datatype Cond = ICmp(pred: Pred, lhs: Val, rhs: Val)

  datatype Inst =
    | AllocaA                           // the stack slot of A
    | AllocaX                           // the stack slot of X
    | AllocaMem(words: nat)             // the scratch array MEM
    | LoadA
    | LoadX
    | StoreA(v: Val)
    | StoreX(v: Val)
    | StoreMem(index: bv32, v: Val)     // store v, (getelementptr inbounds MEM, index)
    | Br(target: nat)
    | CondBr(cond: Cond, ifTrue: nat, ifFalse: nat)
    | Ret(v: Val)
  {
    predicate IsTerminator() {
      Br? || CondBr? || Ret?
    }

    /** The blocks this instruction can transfer control to. */
    function Targets(): set<nat> {
      match this
      case Br(t) => {t}
      case CondBr(_, t, f) => {t, f}
      case _ => {}
    }
  }

  /** The body of the generated `main`: the entry block and the instruction
      blocks `insn.0 .. insn.(n-1)`. */
  datatype Cfg = Cfg(entry: seq<Inst>, blocks: seq<seq<Inst>>)

  /** Every block some instruction of `insts` can branch to. */
  function TargetsOf(insts: seq<Inst>): set<nat> {
    if |insts| == 0 then {} else insts[0].Targets() + TargetsOf(insts[1..])
  }

  /** `TargetsOf` collects exactly the targets of the individual
      instructions. */
  lemma {:induction false} TargetsOfMembers(insts: seq<Inst>, t: nat)
    ensures t in TargetsOf(insts) <==> exists i :: 0 <= i < |insts| && t in insts[i].Targets()
    decreases |insts|
  {
    if |insts| > 0 {
      TargetsOfMembers(insts[1..], t);
      if t in TargetsOf(insts[1..]) {
        var i :| 0 <= i < |insts| - 1 && t in insts[1..][i].Targets();
        assert t in insts[i + 1].Targets();
      }
      if i :| 0 <= i < |insts| && t in insts[i].Targets() {
        if i > 0 {
          assert t in insts[1..][i - 1].Targets();
        }
      }
    }
  }

  predicate EndsInTerminator(block: seq<Inst>) {
    |block| > 0 && block[|block| - 1].IsTerminator()
  }

  /** What the module verifier demands of a block: it ends in its only
      terminator and branches only to existing blocks. */
  predicate Terminated(block: seq<Inst>, n: nat) {
    && EndsInTerminator(block)
    && (forall i :: 0 <= i < |block| - 1 ==> !block[i].IsTerminator())
    && (forall t :: t in TargetsOf(block) ==> t < n)
  }

  /** The module verifier's structural check, over the entry and every
      instruction block. */
  predicate WellFormed(cfg: Cfg) {
    && Terminated(cfg.entry, |cfg.blocks|)
    && (forall j :: 0 <= j < |cfg.blocks| ==> Terminated(cfg.blocks[j], |cfg.blocks|))
  }

  /** Every branch goes to a later block, so every run ends. */
  predicate Forward(cfg: Cfg) {
    forall j, t :: 0 <= j < |cfg.blocks| && t in TargetsOf(cfg.blocks[j]) ==> j < t
  }
}
