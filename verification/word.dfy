/** 32-bit machine words. The filter machine's registers, the IR's `i32`
    values and C's `int` are all modelled as `bv32`; this module gives the
    signed comparisons and the arithmetic LLVM's instructions perform on them,
    with `None` wherever LLVM gives no defined result: undefined behaviour for
    division by zero and signed overflow of a division, a poison value for
    shift amounts of 32 or more. Everything
    stays on bit-vectors: a word is never converted to an unbounded integer
    except to index the packet or the scratch memory. */
module Word {
  import opened Results

  /** The sign bit; also the bit pattern of the most negative `int`. */
  const SIGN_BIT: bv32 := 0x8000_0000

  /** All ones: the bit pattern of -1. */
  const MINUS_ONE: bv32 := 0xFFFF_FFFF

  predicate IsNegative(x: bv32) {
    x >= SIGN_BIT
  }

  /** The two's-complement value of a word: how C's `int` parameters, such
      as a helper's packet offset, read it. */
  function Signed(x: bv32): int {
    if IsNegative(x) then x as int - 0x1_0000_0000 else x as int
  }

  /** Signed (two's-complement) `a > b`, LLVM's `icmp sgt`. Flipping the sign
      bit maps the signed order onto the unsigned one. */
  predicate SignedGreater(a: bv32, b: bv32) {
    (a ^ SIGN_BIT) > (b ^ SIGN_BIT)
  }

  /** Signed `a >= b`, LLVM's `icmp sge`. */
  predicate SignedGreaterEq(a: bv32, b: bv32) {
    (a ^ SIGN_BIT) >= (b ^ SIGN_BIT)
  }

  /** LLVM `add`: the sum modulo 2^32. */
  function Add(a: bv32, b: bv32): bv32 {
    a + b
  }

  /** LLVM `mul`: the product modulo 2^32, the same for signed and unsigned
      operands. */
  function Mul(a: bv32, b: bv32): bv32 {
    a * b
  }

  /** Two's-complement negation (LLVM's `sub 0, a`; wraps at INT_MIN). */
  function Negate(a: bv32): bv32 {
    0 - a
  }

  /** The magnitude of a signed word, read unsigned (exact even for INT_MIN). */
  function Magnitude(a: bv32): bv32 {
    if IsNegative(a) then Negate(a) else a
  }

  /** LLVM `sdiv`: quotient rounded toward zero; undefined for a zero divisor
      and for INT_MIN / -1, whose quotient does not fit. */
  function SDiv(a: bv32, b: bv32): (r: Option<bv32>)
    ensures r.Some? <==> b != 0 && !(a == SIGN_BIT && b == MINUS_ONE)
  {
    if b == 0 || (a == SIGN_BIT && b == MINUS_ONE) then None
    else
      var q := Magnitude(a) / Magnitude(b);
      Some(if IsNegative(a) != IsNegative(b) then Negate(q) else q)
  }

  /** LLVM `srem`: the remainder that goes with `sdiv`, taking the dividend's
      sign; undefined exactly where `sdiv` is. */
  function SRem(a: bv32, b: bv32): (r: Option<bv32>)
    ensures r.Some? <==> b != 0 && !(a == SIGN_BIT && b == MINUS_ONE)
  {
    if b == 0 || (a == SIGN_BIT && b == MINUS_ONE) then None
    else
      var m := Magnitude(a) % Magnitude(b);
      Some(if IsNegative(a) then Negate(m) else m)
  }

  /** LLVM `udiv`: unsigned quotient, undefined for a zero divisor. */
  function UDiv(a: bv32, b: bv32): (r: Option<bv32>)
    ensures r.Some? <==> b != 0
  {
    if b == 0 then None else Some(a / b)
  }

  /** LLVM `urem`: unsigned remainder, undefined for a zero divisor. */
  function URem(a: bv32, b: bv32): (r: Option<bv32>)
    ensures r.Some? <==> b != 0
  {
    if b == 0 then None else Some(a % b)
  }

  /** LLVM `shl`: poison for a shift amount of 32 or more. */
  function Shl(a: bv32, n: bv32): (r: Option<bv32>)
    ensures r.Some? <==> n < 32
  {
    if n < 32 then Some(a << n) else None
  }

  /** LLVM `lshr`: zero-filling shift, poison for amounts of 32 or more. */
  function LShr(a: bv32, n: bv32): (r: Option<bv32>)
    ensures r.Some? <==> n < 32
  {
    if n < 32 then Some(a >> n) else None
  }

  /** LLVM `ashr`: sign-filling shift, poison for amounts of 32 or more. */
  function AShr(a: bv32, n: bv32): (r: Option<bv32>)
    ensures r.Some? <==> n < 32
    ensures r.Some? ==> IsNegative(r.value) == IsNegative(a)
  {
    if n < 32 then
      Some(if IsNegative(a) then !((!a) >> n) else a >> n)
    else None
  }

  /** `r` has magnitude `m`, and when it is not zero its sign is `neg`. */
  predicate SignedMagnitude(r: bv32, m: bv32, neg: bool) {
    Magnitude(r) == m && (r == 0 || IsNegative(r) == neg)
  }

  /** `sdiv` rounds toward zero: the magnitude of the quotient is the
      unsigned quotient of the magnitudes, and a non-zero quotient is
      negative exactly when the operands' signs differ. */
  lemma SDivValue(a: bv32, b: bv32)
    ensures var r := SDiv(a, b);
      r.Some? ==> SignedMagnitude(r.value, Magnitude(a) / Magnitude(b), IsNegative(a) != IsNegative(b))
  {
    if b != 0 && !(a == SIGN_BIT && b == MINUS_ONE) {
      QuotientFits(a, b);
      SignedQuotient(a, b, SDiv(a, b).value);
    }
  }

  lemma SignedQuotient(a: bv32, b: bv32, r: bv32)
    requires SDiv(a, b) == Some(r)
    requires Magnitude(a) / Magnitude(b) <= SIGN_BIT
    requires IsNegative(a) == IsNegative(b) ==> Magnitude(a) / Magnitude(b) < SIGN_BIT
    ensures SignedMagnitude(r, Magnitude(a) / Magnitude(b), IsNegative(a) != IsNegative(b))
  {
    ApplySign(Magnitude(a) / Magnitude(b), IsNegative(a) != IsNegative(b));
  }

  /** The quotient of two magnitudes fits a signed word once its sign is
      applied: at most 2^31, and below it when the signs agree. */
  lemma QuotientFits(a: bv32, b: bv32)
    requires b != 0 && !(a == SIGN_BIT && b == MINUS_ONE)
    ensures Magnitude(a) / Magnitude(b) <= SIGN_BIT
    ensures IsNegative(a) == IsNegative(b) ==> Magnitude(a) / Magnitude(b) < SIGN_BIT
  {
    if Magnitude(b) == 1 {
      DivOne(Magnitude(a));
    } else {
      DivTwo(Magnitude(a), Magnitude(b));
    }
  }

  lemma DivOne(x: bv32)
    ensures x / 1 == x
  {
  }

  lemma DivTwo(x: bv32, y: bv32)
    requires y >= 2
    ensures x / y < SIGN_BIT
  {
  }

  lemma ApplySign(q: bv32, neg: bool)
    requires q <= SIGN_BIT
    requires !neg ==> q < SIGN_BIT
    ensures SignedMagnitude(if neg then Negate(q) else q, q, neg)
  {
  }

  /** The signed results of the LLVM instructions on a few operands, in
      decimal: -7 sdiv 2 = -3, 7 sdiv -2 = -3, INT_MIN sdiv 2 = -2^30,
      -7 srem 2 = -1, 7 srem -2 = 1, INT_MIN srem 3 = -2, INT_MIN ashr 31 = -1
      and -7 ashr 1 = -4. */
  lemma SignedExamples()
    ensures SDiv(0xFFFF_FFF9, 2) == Some(0xFFFF_FFFD)
    ensures SDiv(7, 0xFFFF_FFFE) == Some(0xFFFF_FFFD)
    ensures SDiv(SIGN_BIT, 2) == Some(0xC000_0000)
    ensures SRem(0xFFFF_FFF9, 2) == Some(MINUS_ONE)
    ensures SRem(7, 0xFFFF_FFFE) == Some(1)
    ensures SRem(SIGN_BIT, 3) == Some(0xFFFF_FFFE)
    ensures AShr(SIGN_BIT, 31) == Some(MINUS_ONE)
    ensures AShr(0xFFFF_FFF9, 1) == Some(0xFFFF_FFFC)
  {
  }

  /** `r` is `a` shifted right by `n` with the vacated top `n` bits all
      copies of `a`'s sign bit. */
  predicate SignFilled(r: bv32, a: bv32, n: bv32)
    requires n < 32
  {
    && r & (MINUS_ONE >> n) == a >> n
    && r & !(MINUS_ONE >> n) == if IsNegative(a) then !(MINUS_ONE >> n) else 0
  }

  /** `ashr` is the logical shift with the vacated bits filled with the sign. */
  lemma AShrValue(a: bv32, n: bv32)
    ensures var r := AShr(a, n);
      r.Some? ==> SignFilled(r.value, a, n)
  {
    if n < 32 {
      NegativeFill(a, n);
      PositiveFill(a, n);
    }
  }

  lemma NegativeFill(a: bv32, n: bv32)
    requires n < 32
    ensures IsNegative(a) ==> SignFilled(!((!a) >> n), a, n)
  {
    if IsNegative(a) {
      NegLow(a, n);
      NegHigh(a, n);
    }
  }

  lemma PositiveFill(a: bv32, n: bv32)
    requires n < 32
    ensures !IsNegative(a) ==> SignFilled(a >> n, a, n)
  {
    if !IsNegative(a) {
      PosLow(a, n);
      PosHigh(a, n);
    }
  }

  lemma NegLow(a: bv32, n: bv32)
    requires n < 32
    ensures (!((!a) >> n)) & (MINUS_ONE >> n) == a >> n
  {
  }

  lemma NegHigh(a: bv32, n: bv32)
    requires n < 32 && IsNegative(a)
    ensures (!((!a) >> n)) & !(MINUS_ONE >> n) == !(MINUS_ONE >> n)
  {
  }

  lemma PosLow(a: bv32, n: bv32)
    requires n < 32
    ensures (a >> n) & (MINUS_ONE >> n) == a >> n
  {
  }

  lemma PosHigh(a: bv32, n: bv32)
    requires n < 32 && a < 0x8000_0000
    ensures (a >> n) & !(0xFFFF_FFFF >> n) == 0
  {
  }
}
