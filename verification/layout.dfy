/** The shape of what the translator builds, stated in closed form: the
    entry block is the prolog followed by a branch to `insn.0`, and block `j`
    is the uniform loads, instruction `j`'s body and, when the body is no
    terminator and another block follows, a branch to block `j + 1`. From it
    follow the conditions under which `convert` succeeds. */
module Layout {
  import opened Results
  import opened Opcode
  import opened Dialects
  import opened Ir
  import opened Translate

  /** Every instruction before position `m` translates. */
  predicate LowersUpTo(d: Dialect, insns: seq<BpfInsn>, m: nat)
    requires m <= |insns|
  {
    forall j :: 0 <= j < m ==> Lower(d, insns[j], j, |insns|).Success?
  }

  function Body(d: Dialect, insns: seq<BpfInsn>, j: nat): Inst
    requires j < |insns| && Lower(d, insns[j], j, |insns|).Success?
  {
    Lower(d, insns[j], j, |insns|).value
  }

  /** The finished block of instruction `j`. */
  function BlockOf(d: Dialect, insns: seq<BpfInsn>, j: nat): seq<Inst>
    requires j < |insns| && Lower(d, insns[j], j, |insns|).Success?
  {
    var body := Body(d, insns, j);
    [LoadA, LoadX, body] + (if j + 1 < |insns| && !body.IsTerminator() then [Br(j + 1)] else [])
  }

  /** The finished entry block: the prolog, then a branch to the first
      instruction when there is one. */
  function EntryOf(n: nat): seq<Inst> {
    Prolog() + (if n > 0 then [Br(0)] else [])
  }

  /** The builder after the first `i` instructions: earlier blocks finished,
      block `i - 1` open and holding the cursor, later blocks empty. */
  ghost predicate Partial(d: Dialect, insns: seq<BpfInsn>, i: nat, b: Builder) {
    && i <= |insns| && b.Valid() && |b.blocks| == |insns| && LowersUpTo(d, insns, i)
    && (i == 0 ==> b.entry == Prolog() && b.cursor == AtEntry)
    && (i > 0 ==>
          && b.entry == Prolog() + [Br(0)]
          && b.cursor == AtBlock(i - 1)
          && b.blocks[i - 1] == [LoadA, LoadX, Body(d, insns, i - 1)])
    && (forall j :: 0 <= j < i - 1 ==> b.blocks[j] == BlockOf(d, insns, j))
    && (forall j :: i <= j < |insns| ==> b.blocks[j] == [])
  }

  lemma SetupIsPartial(d: Dialect, insns: seq<BpfInsn>)
    ensures Partial(d, insns, 0, Setup(|insns|))
  {
  }

  /** One step of the loop keeps the layout. */
  lemma ConvertInsnStep(d: Dialect, insns: seq<BpfInsn>, i: nat, b: Builder)
    requires Partial(d, insns, i, b) && i < |insns|
    requires Lower(d, insns[i], i, |insns|).Success?
    ensures ConvertInsn(d, b, insns[i], i).Success?
    ensures Partial(d, insns, i + 1, ConvertInsn(d, b, insns[i], i).value)
  {
    var n := |insns|;
    var b' := ConvertInsn(d, b, insns[i], i).value;
    var body := Body(d, insns, i);
    var closed :=
      if i >= 1 then
        if EndsInTerminator(b.blocks[i - 1]) then b else Emit(b, Br(i))
      else Emit(b, Br(i));
    var positioned := closed.(cursor := AtBlock(i));
    var preamble := Emit(Emit(positioned, LoadA), LoadX);
    assert b' == Emit(preamble, body);
    assert b.blocks[i] == [];
    assert closed.blocks[i] == [];
    var withA := Emit(positioned, LoadA);
    assert withA.blocks == closed.blocks[i := [] + [LoadA]];
    assert [] + [LoadA] == [LoadA];
    assert [LoadA] + [LoadX] == [LoadA, LoadX];
    assert preamble.blocks == closed.blocks[i := [LoadA, LoadX]];
    assert [LoadA, LoadX] + [body] == [LoadA, LoadX, body];
    assert b'.blocks == closed.blocks[i := [LoadA, LoadX, body]];
    if i > 0 {
      var prev := b.blocks[i - 1];
      assert prev[|prev| - 1] == Body(d, insns, i - 1);
      assert EndsInTerminator(prev) <==> Body(d, insns, i - 1).IsTerminator();
      assert closed.blocks[i - 1] == BlockOf(d, insns, i - 1);
    }
  }

  /** Once every instruction is translated, the last block is finished
      too. */
  lemma FinishedLayout(d: Dialect, insns: seq<BpfInsn>, b: Builder)
    requires Partial(d, insns, |insns|, b)
    ensures b.entry == EntryOf(|insns|)
    ensures forall j :: 0 <= j < |insns| ==> b.blocks[j] == BlockOf(d, insns, j)
  {
    var n := |insns|;
    if n > 0 {
      assert b.blocks[n - 1] == BlockOf(d, insns, n - 1);
    }
  }

  /** An instruction that does not translate ends the loop with its error. */
  lemma StopsHere(d: Dialect, insns: seq<BpfInsn>, i: nat, b: Builder)
    requires Partial(d, insns, i, b) && i < |insns|
    requires Lower(d, insns[i], i, |insns|).Failure?
    ensures ConvertFrom(d, insns, i, b) == Failure(Lower(d, insns[i], i, |insns|).error)
    ensures !LowersUpTo(d, insns, |insns|)
    ensures forall m :: i <= m < |insns| && LowersUpTo(d, insns, m) ==> m == i
  {
  }

  /** The loop either translates every remaining instruction, giving the
      closed-form layout, or stops at the first one that does not translate
      with that instruction's error. */
  lemma {:induction false} ConvertFromLayout(d: Dialect, insns: seq<BpfInsn>, i: nat, b: Builder)
    requires Partial(d, insns, i, b)
    ensures ConvertFrom(d, insns, i, b).Success? <==> LowersUpTo(d, insns, |insns|)
    ensures ConvertFrom(d, insns, i, b).Success? ==>
      var r := ConvertFrom(d, insns, i, b).value;
      && r.entry == EntryOf(|insns|)
      && forall j :: 0 <= j < |insns| ==> r.blocks[j] == BlockOf(d, insns, j)
    ensures forall m :: i <= m < |insns| && LowersUpTo(d, insns, m) && Lower(d, insns[m], m, |insns|).Failure? ==>
      ConvertFrom(d, insns, i, b) == Failure(Lower(d, insns[m], m, |insns|).error)
    decreases |insns| - i
  {
    var n := |insns|;
    if i == n {
      FinishedLayout(d, insns, b);
    } else if Lower(d, insns[i], i, n).Success? {
      ConvertInsnStep(d, insns, i, b);
      ConvertFromLayout(d, insns, i + 1, ConvertInsn(d, b, insns[i], i).value);
    } else {
      StopsHere(d, insns, i, b);
    }
  }

  /** `convert` before the verifier: it succeeds exactly when every
      instruction translates; then there are exactly `n` instruction blocks
      (plus the entry) laid out as `EntryOf` and `BlockOf` say. */
  lemma BuildLayout(d: Dialect, insns: seq<BpfInsn>)
    ensures Build(d, insns).Success? <==> LowersUpTo(d, insns, |insns|)
    ensures Build(d, insns).Success? ==>
      var cfg := Build(d, insns).value;
      && |cfg.blocks| == |insns|
      && cfg.entry == EntryOf(|insns|)
      && forall j :: 0 <= j < |insns| ==> cfg.blocks[j] == BlockOf(d, insns, j)
  {
    SetupIsPartial(d, insns);
    ConvertFromLayout(d, insns, 0, Setup(|insns|));
  }

  /** The first instruction that does not translate decides the error. */
  lemma BuildStopsAtFirstError(d: Dialect, insns: seq<BpfInsn>, m: nat)
    requires m < |insns| && LowersUpTo(d, insns, m)
    requires Lower(d, insns[m], m, |insns|).Failure?
    ensures Build(d, insns) == Failure(Lower(d, insns[m], m, |insns|).error)
  {
    SetupIsPartial(d, insns);
    ConvertFromLayout(d, insns, 0, Setup(|insns|));
  }

  /** Block `j` only branches forward, to a block that exists. */
  lemma BlockOfTargets(d: Dialect, insns: seq<BpfInsn>, j: nat)
    requires j < |insns| && Lower(d, insns[j], j, |insns|).Success?
    ensures forall t :: t in TargetsOf(BlockOf(d, insns, j)) ==> j < t < |insns|
  {
    var block := BlockOf(d, insns, j);
    forall t | t in TargetsOf(block)
      ensures j < t < |insns|
    {
      TargetsOfMembers(block, t);
      var i :| 0 <= i < |block| && t in block[i].Targets();
    }
  }

  /** Block `j` is terminated exactly when the instruction ends it itself
      (a return or jump) or another block follows for it to fall into. */
  lemma BlockOfTerminated(d: Dialect, insns: seq<BpfInsn>, j: nat)
    requires j < |insns| && Lower(d, insns[j], j, |insns|).Success?
    ensures Terminated(BlockOf(d, insns, j), |insns|)
        <==> j + 1 < |insns| || Body(d, insns, j).IsTerminator()
  {
    BlockOfTargets(d, insns, j);
  }

  lemma EntryOfTerminated(n: nat)
    ensures Terminated(EntryOf(n), n) <==> n > 0
  {
    var entry := EntryOf(n);
    if n > 0 {
      forall t | t in TargetsOf(entry)
        ensures t < n
      {
        TargetsOfMembers(entry, t);
      }
    }
  }

  /** `convert` succeeds exactly when the program is non-empty, every
      instruction translates, and the last one is a return or a jump: only
      then is the last block terminated, and only then does the entry block
      branch anywhere. */
  lemma ConvertSucceedsIff(d: Dialect, insns: seq<BpfInsn>)
    ensures Convert(d, insns).Success? <==>
      && |insns| > 0
      && LowersUpTo(d, insns, |insns|)
      && (BpfClass(insns[|insns| - 1].code) == BPF_RET || BpfClass(insns[|insns| - 1].code) == BPF_JMP)
    ensures Convert(d, insns).Success? ==> Convert(d, insns) == Build(d, insns)
  {
    var n := |insns|;
    BuildLayout(d, insns);
    if Build(d, insns).Success? {
      var cfg := Build(d, insns).value;
      EntryOfTerminated(n);
      if n > 0 {
        forall j | 0 <= j < n
          ensures Terminated(cfg.blocks[j], n) <==> j + 1 < n || Body(d, insns, j).IsTerminator()
        {
          BlockOfTerminated(d, insns, j);
        }
        var last := insns[n - 1];
        assert Body(d, insns, n - 1).IsTerminator()
          <==> BpfClass(last.code) == BPF_RET || BpfClass(last.code) == BPF_JMP;
        assert WellFormed(cfg) <==> Terminated(cfg.blocks[n - 1], n);
      }
    }
  }

  /** Every branch of a translated program goes to a later instruction's
      block, so the generated function has no loops. */
  lemma ConvertIsForward(d: Dialect, insns: seq<BpfInsn>)
    requires Build(d, insns).Success?
    ensures Forward(Build(d, insns).value)
  {
    BuildLayout(d, insns);
    var cfg := Build(d, insns).value;
    forall j, t | 0 <= j < |cfg.blocks| && t in TargetsOf(cfg.blocks[j])
      ensures j < t
    {
      BlockOfTargets(d, insns, j);
    }
  }

  /** The empty program does not convert: its entry block is left without
      a terminator. */
  lemma EmptyProgramFails(d: Dialect)
    ensures Convert(d, []) == Failure(VerifyFailed)
  {
    EntryOfTerminated(0);
  }
}
