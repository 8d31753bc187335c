/** Two readings of the filter machine. `AsWritten` is what `src/lib.rs` and
    `src/ll/util.c` implement; `Corrected` is the machine of bpf(4), which the
    code evidently set out to implement. They differ in six places: the
    false edge of a conditional jump (taken from `jt` as written), the value
    `RET_K` returns (`X` as written), the signedness of `JGT`/`JGE`, `DIV`,
    `MOD` and `RSH` (signed as written), the `JSET` test (signed `> 0` as
    written) and the byte order of half-word loads (swapped as written). The
    translator, the IR interpreter (through the helper library it links) and
    the reference machine all take the dialect as a parameter. */
module Dialects {

  datatype Dialect = AsWritten | Corrected
}
