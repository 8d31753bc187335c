# cbpf-to-llvm-ir in Dafny

A model of the classic-BPF to LLVM IR translator of `cbpf-to-llvm-ir`
and of the packet-access helpers it links into every generated module.

`Converter::convert` takes a classic BPF filter program and builds an
LLVM function `main(i8* packet) -> i32`:

- The entry block allocates stack slots for the accumulator `A`, the index
  register `X` and the 16-word scratch memory `MEM`, and zeroes `A` and `X`.
- There is one basic block `insn.i` per filter instruction.
- `convert_insn` fills these blocks in a single pass. Each block loads `A`
  and `X` and emits the instruction's effect. A block that does not end in
  a terminator gets a branch into the next block.
- The finished module must pass LLVM's verifier.
- Packet loads are calls to `ldw`, `ldh`, `ldb` and `msh` from
  `src/ll/util.c`.

The model has the following parts:

- **`Opcode`**: instructions, the `<net/bpf.h>` field masks, and a decoder
  that names the instruction a code denotes.
- **`Util`**: the C helpers as functions on `bv32` and `seq<bv8>`.
- **`Ir`**: an abstract IR that replaces the LLVM builder calls. Blocks are
  sequences of `Inst`, and values are expression trees (`Call`, `Bin`,
  `MemAt`, …).
- **`Translate`**: `convert` and `convert_insn` as pure functions over a
  `Builder` value. Every `panic!` becomes a `Failure`. The LLVM verifier
  becomes the structural check `Ir.WellFormed`.
- **`Lowering` and `Layout`**: what the translator emits, per instruction
  and for the whole program, and exactly when it succeeds.
- **`Machine`**: the filter machine of the FILTER MACHINE section of the
  FreeBSD bpf(4) manual page. It serves as a reference semantics.
- **`Interp`**: an interpreter for the abstract IR.
- **`Agreement` and `Simulation`**: the generated function returns the
  filter machine's verdict on every packet.
- **`Scenarios`**: the repository's two tests, restated as theorems, a
  program whose jump leads to two different returns, and a program that
  reads an unwritten scratch word before overwriting it.
- **`Findings`**: where the code departs from bpf(4).

Both the translator and the machine take a `Dialect`:

- `AsWritten` is what the code does.
- `Corrected` is bpf(4), for packet offsets below 2^31 (see "Left out").

`Simulation.ConvertPreservesMeaning` holds in both dialects. The
`AsWritten` translation therefore implements the `AsWritten` machine
exactly. Each difference between the two machines is a finding (see below).

A run is `Undefined` when the model claims no verdict for it. That is the
case at the first step that does one of these:

- division by zero and `INT_MIN / -1` (undefined behaviour in LLVM);
- `MEM[k]` with `k >= 16` (an out-of-bounds access);
- a packet read out of bounds (an out-of-bounds read in the C helpers);
- a shift by 32 or more (a poison value in LLVM);
- a read of a scratch word that was never written (an undef value in LLVM).

The last two are not undefined behaviour in LLVM. The model stops at them
all the same (see "Left out").

Two more facts about the code shape the model:

- The empty program fails. `convert_insn(0)` emits the entry block's
  `br` (`src/lib.rs:239-242`), and with no instruction it is never called.
  The entry block then has no terminator, and the verifier rejects the
  function (`Layout.EmptyProgramFails`).
- A jump past the last block is not checked. The code indexes `bbs` out of
  bounds (`src/lib.rs:363` and `366-367`) and panics. The model turns this
  into the error `TargetOutOfRange`.

## Model

| member | source | states |
|---|---|---|
| Opcode.JumpTarget | src/lib.rs:363-367 | a jump lands on block `idx + 1 + off` (`k` for `JA`, `jt` or `jf` for a conditional jump), always after the jump itself |
| Opcode.DecodeEncode | src/lib.rs:255-447 | decoding an instruction's canonical code gives the instruction back, so every instruction the translator dispatches on is reachable |
| Opcode.DecodeIgnoresHighByte | src/lib.rs:255-447 | the dispatch reads only the low byte of the opcode |
| Word.SDiv | src/lib.rs:417-419 | LLVM `sdiv` is defined exactly when the divisor is non-zero and the division is not `INT_MIN / -1` |
| Word.SRem | src/lib.rs:420-422 | LLVM `srem` is defined exactly where `sdiv` is |
| Word.UDiv | src/lib.rs:417-419 | the unsigned division bpf(4) asks for is defined exactly for a non-zero divisor |
| Word.URem | src/lib.rs:420-422 | the unsigned remainder is defined exactly for a non-zero divisor |
| Word.Shl | src/lib.rs:426 | `shl` is defined exactly for shift amounts below 32 |
| Word.LShr | src/lib.rs:427-429 | the logical shift bpf(4) asks for is defined exactly for amounts below 32 |
| Word.AShr | src/lib.rs:427-429 | `ashr` is defined exactly for amounts below 32 and keeps the sign of `A` |
| Word.SDivValue | src/lib.rs:417-419 | `sdiv` rounds toward zero: the quotient's magnitude is the unsigned quotient of the operands' magnitudes, and a non-zero quotient is negative exactly when the operands' signs differ |
| Word.AShrValue | src/lib.rs:427-429 | `ashr` by `n` is the logical shift with the vacated top `n` bits all copies of the sign bit |
| Word.SignedExamples | src/lib.rs:417-429 | on sample operands: -7 sdiv 2 = -3, 7 sdiv -2 = -3, INT_MIN sdiv 2 = -2^30, -7 srem 2 = -1, 7 srem -2 = 1, INT_MIN srem 3 = -2, INT_MIN ashr 31 = -1, -7 ashr 1 = -4 |
| Util.Be | src/ll/util.c:2-5 | `be` puts byte 3 of its argument in byte 0, byte 2 in byte 1, and so on |
| Util.BeInvolution | src/ll/util.c:2-5 | applying `be` twice gives the word back |
| Util.BeSwapsByteOrder | src/ll/util.c:11-14 | reversing a word read least significant byte first gives the word read most significant byte first |
| Util.Be16 | src/ll/util.c:7-9 | `be16` swaps the two low bytes and its result is below 65536 |
| Util.Be16Involution | src/ll/util.c:7-9 | on 16-bit values, `be16` twice is the identity |
| Util.Ldw | src/ll/util.c:11-14 | on a little-endian host, `ldw` returns the network-order word `p[o]<<24 \| p[o+1]<<16 \| p[o+2]<<8 \| p[o+3]` |
| Util.Ldh | src/ll/util.c:16-19 | `ldh` as shipped returns `p[o] \| p[o+1]<<8`, below 65536 |
| Util.LdhNet | src/ll/util.c:16-19 | `ldh` without the second swap puts the byte at `o` in bits 8-15 and the byte at `o + 1` in bits 0-7, with the upper half zero |
| Util.LdhNetIsNetHalf | src/ll/util.c:16-19 | those bytes and that bound make `ldh` without the second swap equal to bpf(4)'s network-order `P[o:2]` |
| Util.LdhIsSwappedLdhNet | src/ll/util.c:16-19 | shipped `ldh` is `be16` of the network-order half-word, and the two agree exactly when both bytes are equal |
| Util.Ldb | src/ll/util.c:21-23 | `ldb` returns the byte at the offset, zero-extended, below 256 |
| Util.Msh | src/ll/util.c:25-27 | `msh` is `4*(P[o:1]&0xf)`, a multiple of 4 no larger than 60 |
| Machine.MemWrite | src/lib.rs:347-359 | a scratch store succeeds exactly for `k < 16`; afterwards `M[k]` reads back the stored value and no register or other word changes |
| Machine.Step | src/lib.rs:361-400 | every jump moves forward and changes no register |
| Machine.StepWritesOnlyA | src/lib.rs:266-310 | loads into `A`, the ALU operations and `TXA` fall through or fault, and change only `A` |
| Machine.StepWritesOnlyX | src/lib.rs:312-345 | `LDX` and `TAX` fall through or fault, and change only `X` |
| Machine.StepWritesOnlyMem | src/lib.rs:347-359 | `ST`/`STX` continue exactly when `k < 16`, and then change only `M[k]`, to `A` or `X` respectively |
| Machine.StepControl | src/lib.rs:256-400 | jumps always jump and change nothing; returns always return |
| Translate.LowerJump | src/lib.rs:361-400 | a translated jump is a terminator whose targets lie after it and inside the program |
| Translate.Lower | src/lib.rs:255-447 | a translated instruction branches only forward and inside the program, and is a terminator exactly when it is a `RET` or a `JMP` |
| Translate.Emit | src/lib.rs:243 | appending at the insertion point keeps the insertion point and the number of blocks |
| Translate.Setup | src/lib.rs:211-216 | the prolog and the `n` empty blocks form a valid builder |
| Translate.ConvertInsn | src/lib.rs:230-253 | `convert_insn` succeeds exactly when the instruction translates, and it leaves the builder at block `idx` |
| Translate.ConvertFrom | src/lib.rs:218-221 | the loop keeps exactly one block per instruction |
| Lowering.LowerIsLowerOp | src/lib.rs:255-447 | the bit-field dispatch rejects every code that decodes to nothing, and translates the rest as the table of decoded instructions says |
| Lowering.RetByOp | src/lib.rs:256-263 | the same, for the `RET` class |
| Lowering.LdByOp | src/lib.rs:266-310 | the same, for the `LD` class |
| Lowering.LdxByOp | src/lib.rs:312-345 | the same, for the `LDX` class |
| Lowering.JmpByOp | src/lib.rs:361-400 | the same, for the `JMP` class |
| Lowering.AluByOp | src/lib.rs:403-436 | the same, for the `ALU` class |
| Lowering.UnreachableErrors | src/lib.rs:369-373 | the `InvalidSrc` panic, and the `InvalidInstruction` panic at line 447, can never fire: the source field has one bit and the class field three |
| Lowering.JumpTargets | src/lib.rs:361-367 | `JA` goes to `idx+1+k`; a conditional jump goes to `idx+1+jt` on both edges as written; a target past the last block aborts |
| Layout.SetupIsPartial | src/lib.rs:211-216 | before the loop, the entry block holds the prolog and every instruction block is empty |
| Layout.ConvertInsnStep | src/lib.rs:230-253 | one turn of the loop closes block `i-1` with a branch exactly when it is unterminated, and fills block `i` with the two loads and the body |
| Layout.FinishedLayout | src/lib.rs:218-221 | when the loop ends, every block has its final contents |
| Layout.StopsHere | src/lib.rs:219-220 | an instruction that does not translate aborts the loop with its error |
| Layout.ConvertFromLayout | src/lib.rs:218-221 | the loop succeeds exactly when every instruction translates; it then yields the closed-form layout, and otherwise fails with the first failing instruction's error |
| Layout.BuildLayout | src/lib.rs:211-221 | before verification: exactly `n` instruction blocks; the entry is the prolog plus `br insn.0` when `n > 0`; block `j` is the loads, the body, and a fallthrough branch when needed |
| Layout.BuildStopsAtFirstError | src/lib.rs:219-221 | the first instruction that does not translate decides the error |
| Layout.BlockOfTargets | src/lib.rs:361-400 | block `j` branches only to blocks after `j` that exist |
| Layout.BlockOfTerminated | src/lib.rs:233-243 | block `j` passes the verifier's block check exactly when another block follows it or its instruction is a `RET` or `JMP` |
| Layout.EntryOfTerminated | src/lib.rs:239-242 | the entry block is terminated exactly when the program is non-empty |
| Layout.ConvertSucceedsIff | src/lib.rs:211-227 | `convert` succeeds exactly when the program is non-empty, every instruction translates, and the last instruction is a `RET` or a `JMP` |
| Layout.ConvertIsForward | src/lib.rs:361-400 | every branch of a translated program goes to a later block, so the function has no loops |
| Layout.EmptyProgramFails | src/lib.rs:223-225 | the empty program fails verification |
| Agreement.EvalSrc | src/lib.rs:369-373 | the operand `k` or `X` evaluates to the machine's operand |
| Agreement.EvalIndex | src/lib.rs:269-270 | the offset of an indexed load is `X + k` modulo 2^32 |
| Agreement.HelperAgrees | src/lib.rs:274-286 | the helper chosen for a load width returns the machine's packet load of that width |
| Agreement.LdwAgrees | src/ll/util.c:11-14 | `ldw` is the machine's `P[o:4]` and is undefined where that is |
| Agreement.LdhAgrees | src/ll/util.c:16-19 | the linked `ldh` is the dialect's `P[o:2]` |
| Agreement.LdbAgrees | src/ll/util.c:21-23 | `ldb` is the machine's `P[o:1]` |
| Agreement.MshAgrees | src/ll/util.c:25-27 | `msh` is the machine's `4*(P[o:1]&0xf)` |
| Agreement.StoreAAgrees | src/lib.rs:287 | a store into `A` of a defined value sets `A`; of an undefined value it is undefined |
| Agreement.StoreXAgrees | src/lib.rs:325 | the same, for `X` |
| Agreement.StoreMemAgrees | src/lib.rs:347-359 | a store into `MEM[k]` does the machine's scratch write, undefined for `k >= 16` |
| Agreement.AbsAgrees | src/lib.rs:268-288 | `LD ABS` loads `P[k:width]` into `A` as the machine does |
| Agreement.IndAgrees | src/lib.rs:268-288 | `LD IND` loads `P[X+k:width]` into `A` as the machine does |
| Agreement.LoadVia | src/lib.rs:274-287 | a helper call at a defined offset does the machine's load at that offset |
| Agreement.MshLoadAgrees | src/lib.rs:317-326 | `LDX MSH` sets `X` to `4*(P[k:1]&0xf)` |
| Agreement.ImmAgrees | src/lib.rs:292-295 | `LD IMM` and `LDX IMM` set `A`, respectively `X`, to `k` |
| Agreement.MemLoadAgrees | src/lib.rs:296-308 | `LD MEM` and `LDX MEM` read `M[k]`, undefined when it was never written or `k >= 16` |
| Agreement.MemStoreAgrees | src/lib.rs:347-359 | `ST` and `STX` write `A`, respectively `X`, to `M[k]` |
| Agreement.TransferAgrees | src/lib.rs:438-446 | `TAX` copies `A` to `X`; `TXA` copies `X` to `A` |
| Agreement.NegAgrees | src/lib.rs:404-405 | `NEG` sets `A` to `-A` modulo 2^32 |
| Agreement.JaAgrees | src/lib.rs:361-364 | `JA` jumps where the machine jumps |
| Agreement.JgtAgrees | src/lib.rs:390 | the emitted `JGT` predicate is the machine's comparison in either dialect |
| Agreement.JgeAgrees | src/lib.rs:391 | the same, for `JGE` |
| Agreement.CompareAgrees | src/lib.rs:389-396 | the predicates of `JGT`, `JGE` and `JEQ` decide the machine's comparison |
| Agreement.JsetAgrees | src/lib.rs:375-387 | comparing `A & src` with zero decides the machine's `JSET` test |
| Agreement.MaskCondAgrees | src/lib.rs:375-387 | the emitted `JSET` condition evaluates to whether the machine takes the jump |
| Agreement.CmpCondAgrees | src/lib.rs:389-396 | the emitted comparison evaluates to whether the machine takes the jump |
| Agreement.CondAgrees | src/lib.rs:369-397 | every branch condition holds exactly when the machine takes the jump |
| Agreement.JcondAgrees | src/lib.rs:365-400 | a conditional jump goes where the machine goes |
| Agreement.DivAgrees | src/lib.rs:417-419 | the instruction chosen for `DIV` computes the machine's quotient, undefined where it is |
| Agreement.ModAgrees | src/lib.rs:420-422 | the same, for `MOD` |
| Agreement.RshAgrees | src/lib.rs:427-429 | the same, for `RSH` |
| Agreement.BinAgrees | src/lib.rs:413-431 | every binary ALU instruction computes the machine's `A op src` |
| Agreement.AluAgrees | src/lib.rs:403-436 | `A <- A op src` stores the machine's result in `A`, undefined where it is |
| Agreement.RetAgrees | src/lib.rs:256-263 | `RET A` returns `A`; `RET K` returns what the dialect's machine returns |
| Agreement.OpAgrees | src/lib.rs:255-447 | every instruction the translator accepts does what the machine does |
| Agreement.BodyAgrees | src/lib.rs:255-447 | the body emitted for an accepted instruction does what the machine does with the decoded instruction |
| Simulation.ExitOf | src/lib.rs:233-243 | falling through leaves a block for the next block, or leaves the function when there is none |
| Simulation.ExecPreamble | src/lib.rs:248-249 | a block's two loads hand the current `A` and `X` to its body |
| Simulation.BlockRuns | src/lib.rs:230-449 | block `j` of a translated program does what the machine's step at instruction `j` does |
| Simulation.RunFromAgrees | src/lib.rs:216-221 | from any block on, the translated program and the filter give the same outcome |
| Simulation.AllocasRun | src/lib.rs:145-148 | the stack allocations change no state |
| Simulation.ZeroingRuns | src/lib.rs:149-151 | the prolog's stores zero `A` and `X` |
| Simulation.PrologRuns | src/lib.rs:135-156 | the prolog starts every run in the initial state, whatever the stack slots held |
| Simulation.EntryRuns | src/lib.rs:239-242 | the entry block runs the prolog and branches to `insn.0` |
| Simulation.ConvertPreservesMeaning | src/lib.rs:211-227 | a converted program has no loops, and on every packet returns the filter's verdict, or is undefined exactly where the filter is |
| Scenarios.Converts | src/lib.rs:211-227 | a non-empty program that translates instruction by instruction and ends in a `RET` or `JMP` converts |
| Scenarios.JitTestMachine | src/lib.rs:574-592 | the `jit_test` filter returns 30 on every packet |
| Scenarios.JitTestLowers | src/lib.rs:576-581 | every instruction of the `jit_test` program translates |
| Scenarios.JitTestTranslates | src/lib.rs:584-587 | the `jit_test` program converts |
| Scenarios.JitTestConverts | src/lib.rs:574-592 | the function generated for `jit_test` returns 30 on every packet, in either dialect |
| Scenarios.ZeroOperandLowers | src/lib.rs:255-447 | with zero operands, every instruction except the `LEN` loads translates at any position; a jump needs another instruction after it |
| Scenarios.ZeroOperandsLower | src/lib.rs:518-571 | every instruction of such a program ending in a `RET` translates |
| Scenarios.ZeroOperandsConvert | src/lib.rs:518-571 | such a program converts |
| Scenarios.AllInsnsConvert | src/lib.rs:518-571 | the 47-instruction program of `convert_all_insn` converts, in either dialect |
| Scenarios.TwoPathsMachine | src/lib.rs:361-400 | `ld #a; jgt #1, jt 1, jf 0; ret #7; ret #9` returns 9 when `a > 1` and 7 otherwise in bpf(4), and 0 on every packet as written |
| Scenarios.TwoPathsLowers | src/lib.rs:255-447 | every instruction of that program translates, in either dialect |
| Scenarios.TwoPathsConverts | src/lib.rs:211-227 | the generated function for that program returns the same verdicts, so as written both edges reach `ret #9` and return `X` |
| Scenarios.ScratchFirstFrom1 | src/lib.rs:296-308 | in `ld M[0]; ld #5; ret a`, the run from the second instruction returns 5 whatever the registers and the scratch memory hold |
| Scenarios.ScratchFirstHasNoVerdict | src/lib.rs:145-151 | the prolog allocates `MEM` without storing into it, so the model gives `ld M[0]; ld #5; ret a` no verdict, although LLVM would overwrite the undef value and return 5 |
| Findings.FalseEdgeAsWritten | src/lib.rs:366-367 | `JEQ #1, jt 0, jf 2` with `A = 0` goes to instruction 1 as written; bpf(4) goes to 3 |
| Findings.BranchCorrected | src/lib.rs:361-400 | the corrected conditional jump goes to `idx+1+jt` when bpf(4)'s unsigned condition holds and to `idx+1+jf` otherwise |
| Findings.TakenCorrected | src/lib.rs:375-396 | the corrected machine's jump conditions are bpf(4)'s: unsigned `>` and `>=`, equality, and a common bit |
| Findings.LowerBranchCorrected | src/lib.rs:366-399 | the corrected translation branches on the corrected condition to `idx+1+jt` and `idx+1+jf` |
| Findings.SignedCompareAsWritten | src/lib.rs:389-396 | with `A = 0xffffffff`, the emitted `JGT #1` and `JGE #1` fall through, while bpf(4) takes both |
| Findings.JsetAsWritten | src/lib.rs:375-387 | with `A = 0x80000000`, the emitted `JSET #0x80000000` is not taken, while bpf(4) takes it |
| Findings.DivAsWritten | src/lib.rs:417-419 | with `A = 0xffffffff`, `DIV #2` stores 0, while bpf(4) gives 0x7fffffff |
| Findings.ModAsWritten | src/lib.rs:420-422 | with `A = 0xffffffff`, `MOD #2` stores 0xffffffff, while bpf(4) gives 1 |
| Findings.RshAsWritten | src/lib.rs:427-429 | with `A = 0x80000000`, `RSH #1` stores 0xc0000000, while bpf(4) gives 0x40000000 |
| Findings.AluCorrected | src/lib.rs:403-436 | the corrected `A <- A op src` stores what the chosen LLVM instruction computes, and is undefined where that is |
| Findings.DivCorrected | src/lib.rs:417-419 | the corrected `DIV` stores the unsigned quotient `A / src`, and is undefined for a zero divisor |
| Findings.ModCorrected | src/lib.rs:420-422 | the corrected `MOD` stores the unsigned remainder `A % src`, and is undefined for a zero divisor |
| Findings.RshCorrected | src/lib.rs:427-429 | the corrected `RSH` stores `A >> src` with zeros shifted in, and is undefined for shifts of 32 or more |
| Findings.ReturnKConverts | src/lib.rs:256-263 | the one-instruction program `ret #k` converts in either dialect |
| Findings.ReturnKRuns | src/lib.rs:260-262 | `ret #k` returns `X`, which is 0, as written, and `k` when corrected |
| Findings.ReturnKAsWritten | src/lib.rs:260-262 | the function generated for `ret #5` returns 0 on every packet; bpf(4) returns 5 |
| Findings.ReturnKCorrected | src/lib.rs:256-263 | the corrected function for `ret #k` returns `k` on every packet |
| Findings.LdhAsWritten | src/ll/util.c:16-19 | on the packet `12 34`, the shipped `ldh` at offset 0 returns 0x3412; bpf(4)'s `P[0:2]` is 0x1234 |
| Findings.LdhCorrected | src/ll/util.c:16-19 | the corrected `ldh` is defined exactly when both bytes are in the packet, and then returns `p[o]<<8 \| p[o+1]` |

## Left out

- Building the LLVM context, module and builder (`Converter::new`), and `Drop`: these are foreign resources with no behaviour of their own.
- `create_main` gets no member of its own. The model has exactly one function, and the packet pointer it takes is the `pkt` argument of the interpreter.
- `link_util`, `link_module_from_buf` and `load_function` parse and link `util.ll` through LLVM. The helpers appear only as the four names of `Ir.Helper`. `Interp.CallHelper` binds those names to the functions of `Util`.
- `verify_module` and `verify_main` run LLVM's verifier. `Ir.WellFormed` abstracts it: each block ends in its only terminator and branches only to existing blocks. Type checking is not modelled, because every value in the model is an `i32`.
- `get_ir` and `dump_module` print text, and the model has no printer. `convert` returns the `Cfg` where the code returns its printed text.
- `jit_compile` and `run_jit_func` compile and run machine code through MCJIT. `Interp.Run` stands in for running the generated function.
- `src/bin/cbpf2ir.rs`, the command-line front end, is not part of this model.
- The `cbpf` crate's field extractors are not part of this model. `Opcode` uses the `<net/bpf.h>` masks instead.
- The SSA values are modelled as expression trees. This works because every value the builder creates is used at most once, in the same block. The loads of `A` and `X` at the top of each block are emitted whatever the instruction (`src/lib.rs:231`, `248-249`), and many instructions use neither. An unused load only reads a stack slot, so the tree simply leaves it out. The tree drops the order in which the builder emits the chain.
- Util.Ldw: `ldw`'s `*(int *)` read depends on the host's byte order. The model fixes a little-endian host, as the TODO on line 1 of `util.c` assumes. The function is not modelled on a big-endian host.
- Word.SRem: over all inputs the model proves only where `srem` is defined, not its value. `Word.SignedExamples` checks the value, including the dividend's sign, on sample operands. Any all-inputs statement about the value needs reasoning about the bit-vector remainder `|a| % |b|`: a bound such as `|r| < |b|`, or its agreement with another remainder term such as `urem` on non-negative operands. The solver cannot establish either.
- Util.Be: C's `int` arithmetic in `be` overflows when a byte with its high bit set is shifted into the sign bit. The model uses the two's-complement result that compilers produce.
- The code leaves `MEM` uninitialised, so in LLVM a read of a scratch word that was never written yields an undef value, not undefined behaviour. The model gives no verdict at that read. bpf(4) says nothing on this.
- Machine.Run: the model is coarser than LLVM for undef values (unwritten `MEM` words) and poison values (shifts by 32 or more). LLVM's function may still return a verdict when such a value is overwritten before it reaches a return, a branch, a divisor or an address. For example, `ld M[0]; ld #5; ret a` returns 5, while the model says `Undefined`. `Simulation.ConvertPreservesMeaning` promises agreement with the model, not with LLVM, in those runs.
- Machine.PacketLoad: it reads `P[k:n]` at the signed offset, as the helpers' C `int` parameter does. For offsets of 2^31 or more the `Corrected` machine therefore gives no verdict, where bpf(4) reads at the unsigned offset `k`. For `LD IND`, the offset `X + k` wraps modulo 2^32, as the generated `add` does. When the sum is 2^32 or more and the wrapped offset lies in the packet, the `Corrected` machine loads from there and can give a verdict, where bpf(4) treats the access as out of bounds.
- The helpers' offsets are C `int`s, so a negative offset reads before the packet. The model reads only the packet's own bytes: any read outside them is undefined.

## Findings

| source | as written | input that shows it | evidently intended | confidence | as-written member | corrected member |
|---|---|---|---|---|---|---|
| src/lib.rs:366-367 | the false edge is taken from `insn.jt`, so both edges go to the same block | `JEQ #1, jt 0, jf 2` at 0 of 4 with `A = 0` goes to 1, not 3 | false edge to `idx + 1 + jf` | high; not executed | Findings.FalseEdgeAsWritten | Findings.BranchCorrected |
| src/lib.rs:260-262 | `RET_K` returns `X` | `ret #5` returns 0 | return `k` | high; not executed | Findings.ReturnKAsWritten | Findings.ReturnKCorrected |
| src/lib.rs:389-391 | `JGT` and `JGE` compare signed (`sgt`, `sge`) | `A = 0xffffffff`, `JGT #1`: not taken | unsigned comparison (`ugt`, `uge`), as in bpf(4) | medium; not executed | Findings.SignedCompareAsWritten | Findings.BranchCorrected |
| src/lib.rs:375-387 | `JSET` tests `(A & src) > 0`, signed | `A = k = 0x80000000`: not taken | `(A & src) != 0` | medium; not executed | Findings.JsetAsWritten | Findings.BranchCorrected |
| src/lib.rs:417-419 | `DIV` is `sdiv` | `A = 0xffffffff`, `DIV #2`: 0 | unsigned `udiv`: 0x7fffffff | medium; not executed | Findings.DivAsWritten | Findings.DivCorrected |
| src/lib.rs:420-422 | `MOD` is `srem` | `A = 0xffffffff`, `MOD #2`: 0xffffffff | unsigned `urem`: 1 | medium; not executed | Findings.ModAsWritten | Findings.ModCorrected |
| src/lib.rs:427-429 | `RSH` is `ashr` | `A = 0x80000000`, `RSH #1`: 0xc0000000 | logical `lshr`: 0x40000000 | medium; not executed | Findings.RshAsWritten | Findings.RshCorrected |
| src/ll/util.c:16-19 | `ldh` builds the network-order half-word and then swaps it again with `be16` | packet `12 34`, offset 0: 0x3412 | 0x1234, no second swap | high; not executed | Findings.LdhAsWritten | Findings.LdhCorrected |
