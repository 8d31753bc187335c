/** The translation preserves meaning: running the generated function on a
    packet gives the verdict the filter machine gives, block by block and
    instruction by instruction. The generated code and the machine are read
    in the same dialect, so under `AsWritten` this says what the translator
    as written computes, and under `Corrected` that the corrected translator
    implements bpf(4). */
module Simulation {
  import opened Results
  import opened Opcode
  import opened Dialects
  import opened Ir
  import opened Translate
  import opened Layout
  import opened Agreement
  import Machine
  import Interp

  /** How control leaves block `j` of an `n`-block function when the
      machine's step there has effect `e`: falling through goes to the next
      block, or off the end of the function when there is none. */
  function ExitOf(e: Machine.Effect, j: nat, n: nat): (x: Interp.Exit)
    ensures x.Goto? ==> (e.Continue? && x.target == j + 1 < n) || (e.Jump? && x.target == e.target)
  {
    match e
    case Continue(st') => if j + 1 < n then Interp.Goto(j + 1, st') else Interp.Stuck
    case Jump(t, st') => Interp.Goto(t, st')
    case Return(v) => Interp.Return(v)
    case Fault => Interp.Stuck
  }

  /** Where control goes once an instruction with effect `r` has run and
      `rest` follows it in the block. */
  function Then(d: Dialect, r: Interp.InstEffect, rest: seq<Inst>, pkt: seq<bv8>): Interp.Exit {
    match r
    case Proceed(st', fr') => Interp.ExecInsts(d, rest, st', fr', pkt)
    case Leave(x) => x
  }

  /** A block runs its two loads, then its body with both registers
      loaded. */
  lemma ExecPreamble(d: Dialect, body: Inst, rest: seq<Inst>, st: Machine.State, pkt: seq<bv8>)
    ensures Interp.ExecInsts(d, [LoadA, LoadX, body] + rest, st, Interp.Unloaded, pkt)
         == Then(d, Interp.ExecInst(d, body, st, Loaded(st), pkt), rest, pkt)
  {
    var block := [LoadA, LoadX, body] + rest;
    var withA := Interp.Frame(Some(st.a), None);
    assert block[0] == LoadA && block[1..] == [LoadX, body] + rest;
    assert Interp.ExecInsts(d, block, st, Interp.Unloaded, pkt)
        == Interp.ExecInsts(d, [LoadX, body] + rest, st, withA, pkt);
    assert ([LoadX, body] + rest)[0] == LoadX && ([LoadX, body] + rest)[1..] == [body] + rest;
    assert Interp.ExecInsts(d, [LoadX, body] + rest, st, withA, pkt)
        == Interp.ExecInsts(d, [body] + rest, st, Loaded(st), pkt);
    assert ([body] + rest)[0] == body && ([body] + rest)[1..] == rest;
  }

  /** Block `j` of the translated program does what the machine's step at
      instruction `j` does. */
  lemma BlockRuns(d: Dialect, insns: seq<BpfInsn>, j: nat, st: Machine.State, pkt: seq<bv8>)
    requires j < |insns| && Lower(d, insns[j], j, |insns|).Success?
    ensures Decode(insns[j].code).Some?
    ensures Interp.ExecInsts(d, BlockOf(d, insns, j), st, Interp.Unloaded, pkt)
         == ExitOf(Machine.Step(d, Decode(insns[j].code).value, insns[j], j, st, pkt), j, |insns|)
  {
    var n := |insns|;
    var body := Body(d, insns, j);
    var rest := if j + 1 < n && !body.IsTerminator() then [Br(j + 1)] else [];
    assert BlockOf(d, insns, j) == [LoadA, LoadX, body] + rest;
    BodyAgrees(d, insns[j], j, n, st, pkt);
    ExecPreamble(d, body, rest, st, pkt);
    var e := Machine.Step(d, Decode(insns[j].code).value, insns[j], j, st, pkt);
    if e.Continue? {
      assert !body.IsTerminator();
      if j + 1 < n {
        assert rest[1..] == [];
      }
    }
  }

  /** From any instruction on, the translated program and the filter agree. */
  lemma {:induction false} RunFromAgrees(d: Dialect, insns: seq<BpfInsn>, j: nat, st: Machine.State, pkt: seq<bv8>)
    requires Build(d, insns).Success?
    ensures Forward(Build(d, insns).value)
    ensures Interp.RunFrom(d, Build(d, insns).value, j, st, pkt) == Machine.RunFrom(d, insns, j, st, pkt)
    decreases |insns| - j
  {
    ConvertIsForward(d, insns);
    BuildLayout(d, insns);
    var cfg := Build(d, insns).value;
    var n := |insns|;
    if j < n {
      assert Lower(d, insns[j], j, n).Success?;
      BlockRuns(d, insns, j, st, pkt);
      var e := Machine.Step(d, Decode(insns[j].code).value, insns[j], j, st, pkt);
      match e
      case Continue(st') =>
        RunFromAgrees(d, insns, j + 1, st', pkt);
      case Jump(t, st') =>
        RunFromAgrees(d, insns, t, st', pkt);
      case Return(_) =>
      case Fault =>
    }
  }

  /** Running a non-empty run of instructions runs the first, then the rest. */
  lemma ExecHead(d: Dialect, insts: seq<Inst>, i: nat, st: Machine.State, fr: Interp.Frame, pkt: seq<bv8>)
    requires i < |insts|
    ensures Interp.ExecInsts(d, insts[i..], st, fr, pkt)
         == Then(d, Interp.ExecInst(d, insts[i], st, fr, pkt), insts[i + 1..], pkt)
  {
    assert insts[i..][0] == insts[i] && insts[i..][1..] == insts[i + 1..];
  }

  /** Stack allocations change nothing. */
  lemma AllocasRun(d: Dialect, rest: seq<Inst>, st: Machine.State, fr: Interp.Frame, pkt: seq<bv8>)
    ensures Interp.ExecInsts(d, [AllocaA, AllocaX, AllocaMem(BPF_MEMWORDS)] + rest, st, fr, pkt)
         == Interp.ExecInsts(d, rest, st, fr, pkt)
  {
    var insts := [AllocaA, AllocaX, AllocaMem(BPF_MEMWORDS)] + rest;
    assert insts[0..] == insts;
    ExecHead(d, insts, 0, st, fr, pkt);
    ExecHead(d, insts, 1, st, fr, pkt);
    ExecHead(d, insts, 2, st, fr, pkt);
    assert insts[3..] == rest;
  }

  /** The prolog's stores zero both registers. */
  lemma ZeroingRuns(d: Dialect, rest: seq<Inst>, st: Machine.State, fr: Interp.Frame, pkt: seq<bv8>)
    ensures Interp.ExecInsts(d, [StoreA(Const(0)), StoreX(Const(0))] + rest, st, fr, pkt)
         == Interp.ExecInsts(d, rest, st.(a := 0, x := 0), fr, pkt)
  {
    var insts := [StoreA(Const(0)), StoreX(Const(0))] + rest;
    assert insts[0..] == insts;
    ExecHead(d, insts, 0, st, fr, pkt);
    ExecHead(d, insts, 1, st.(a := 0), fr, pkt);
    assert insts[2..] == rest;
  }

  /** The prolog sets up `A = X = 0` with unwritten scratch memory,
      whatever the stack slots held. */
  lemma PrologRuns(d: Dialect, rest: seq<Inst>, a0: bv32, x0: bv32, pkt: seq<bv8>)
    ensures Interp.ExecInsts(d, Prolog() + rest, Machine.State(a0, x0, map[]), Interp.Unloaded, pkt)
         == Interp.ExecInsts(d, rest, Machine.Initial, Interp.Unloaded, pkt)
  {
    var zeroing := [StoreA(Const(0)), StoreX(Const(0))] + rest;
    assert Prolog() + rest == [AllocaA, AllocaX, AllocaMem(BPF_MEMWORDS)] + zeroing;
    AllocasRun(d, zeroing, Machine.State(a0, x0, map[]), Interp.Unloaded, pkt);
    ZeroingRuns(d, rest, Machine.State(a0, x0, map[]), Interp.Unloaded, pkt);
  }

  /** The entry block runs the prolog and branches to the first
      instruction. */
  lemma EntryRuns(d: Dialect, n: nat, a0: bv32, x0: bv32, pkt: seq<bv8>)
    requires n > 0
    ensures Interp.ExecInsts(d, EntryOf(n), Machine.State(a0, x0, map[]), Interp.Unloaded, pkt)
         == Interp.Goto(0, Machine.Initial)
  {
    PrologRuns(d, [Br(0)], a0, x0, pkt);
  }

  /** The generated function returns the filter's verdict on every packet,
      and is undefined exactly where the filter is. */
  lemma ConvertPreservesMeaning(d: Dialect, insns: seq<BpfInsn>, pkt: seq<bv8>, a0: bv32, x0: bv32)
    requires Convert(d, insns).Success?
    ensures Forward(Convert(d, insns).value)
    ensures Interp.Run(d, Convert(d, insns).value, pkt, a0, x0) == Machine.Run(d, insns, pkt)
  {
    ConvertSucceedsIff(d, insns);
    BuildLayout(d, insns);
    RunFromAgrees(d, insns, 0, Machine.Initial, pkt);
    EntryRuns(d, |insns|, a0, x0, pkt);
  }
}
