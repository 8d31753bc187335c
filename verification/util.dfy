/** The packet-access helpers of `src/ll/util.c`, which the generated code
    calls for every packet load. A packet is a sequence of bytes; the C
    helpers take a signed `int` offset and do no bounds checking, so each
    function here requires the bytes it reads to exist. `ldw` reads the word
    through an `int*`, whose byte order is the host's: the model fixes a
    little-endian host, the only one the file supports. */
module Util {

  /** Byte `i` (0 = least significant) of a word. */
  function ByteOf(w: bv32, i: nat): bv8
    requires i < 4
  {
    ((w >> (8 * i)) & 0xff) as bv8
  }

  /** The bytes an access of `width` bytes at `offset` reads all lie in the packet. */
  predicate InBounds(p: seq<bv8>, offset: int, width: nat) {
    0 <= offset && offset + width <= |p|
  }

  /** Four bytes assembled most significant first (network order). */
  function Word4(b0: bv8, b1: bv8, b2: bv8, b3: bv8): bv32 {
    ((b0 as bv32) << 24) | ((b1 as bv32) << 16) | ((b2 as bv32) << 8) | (b3 as bv32)
  }

  /** Two bytes assembled most significant first (network order). */
  function Word2(b0: bv8, b1: bv8): bv32 {
    ((b0 as bv32) << 8) | (b1 as bv32)
  }

  /** bpf(4)'s `P[k:4]`: the word at `offset` in network byte order. */
  function NetWord(p: seq<bv8>, offset: int): bv32
    requires InBounds(p, offset, 4)
  {
    Word4(p[offset], p[offset + 1], p[offset + 2], p[offset + 3])
  }

  /** bpf(4)'s `P[k:2]`: the half-word at `offset` in network byte order. */
  function NetHalf(p: seq<bv8>, offset: int): bv32
    requires InBounds(p, offset, 2)
  {
    Word2(p[offset], p[offset + 1])
  }

  /** `be`: reverses the four bytes of a word. */
  function Be(x: bv32): (r: bv32)
    ensures ByteOf(r, 0) == ByteOf(x, 3) && ByteOf(r, 1) == ByteOf(x, 2)
    ensures ByteOf(r, 2) == ByteOf(x, 1) && ByteOf(r, 3) == ByteOf(x, 0)
  {
    ((x & 0xff) << 24) | (((x >> 8) & 0xff) << 16) | (((x >> 16) & 0xff) << 8) | ((x >> 24) & 0xff)
  }

  /** Reversing the bytes twice gives the word back. */
  lemma BeInvolution(x: bv32)
    ensures Be(Be(x)) == x
  {
  }

  /** Reversing the bytes of four bytes read least significant first gives
      the same bytes read most significant first. */
  lemma BeSwapsByteOrder(b0: bv8, b1: bv8, b2: bv8, b3: bv8)
    ensures Be(Word4(b3, b2, b1, b0)) == Word4(b0, b1, b2, b3)
  {
  }

  /** `be16`: swaps the two low bytes of a word and clears the high half. */
  function Be16(x: bv32): (r: bv32)
    ensures r < 0x1_0000
    ensures ByteOf(r, 0) == ByteOf(x, 1) && ByteOf(r, 1) == ByteOf(x, 0)
  {
    ((x & 0xff) << 8) | ((x >> 8) & 0xff)
  }

  /** On 16-bit values swapping twice gives the value back. */
  lemma Be16Involution(x: bv32)
    requires x < 0x1_0000
    ensures Be16(Be16(x)) == x
  {
  }

  /** `*(int *)(x + offset)`: the host's four-byte read. On the little-endian
      host the helpers assume, the first byte is the least significant. */
  function HostLoad(p: seq<bv8>, offset: int): bv32
    requires InBounds(p, offset, 4)
  {
    Word4(p[offset + 3], p[offset + 2], p[offset + 1], p[offset])
  }

  /** `ldw`: the host read with its bytes reversed, which on a little-endian
      host is the network-order word at `offset`, as bpf(4) loads it. */
  function Ldw(p: seq<bv8>, offset: int): (r: bv32)
    requires InBounds(p, offset, 4)
    ensures r == NetWord(p, offset)
  {
    BeSwapsByteOrder(p[offset], p[offset + 1], p[offset + 2], p[offset + 3]);
    Be(HostLoad(p, offset))
  }

  /** `ldh` as shipped: it assembles the network-order half-word and then
      swaps it again with `be16`, so it returns the two bytes in
      little-endian order. */
  function Ldh(p: seq<bv8>, offset: int): (r: bv32)
    requires InBounds(p, offset, 2)
    ensures r == Word2(p[offset + 1], p[offset])
    ensures r < 0x1_0000
  {
    SwapPair(p[offset], p[offset + 1]);
    Be16(((p[offset] as bv32) << 8) | (p[offset + 1] as bv32))
  }

  /** `ldh` without the second swap: the network-order half-word bpf(4)
      loads. The byte at `offset` becomes the high byte of the half-word,
      the next one its low byte, and the upper half of the word is zero. */
  function LdhNet(p: seq<bv8>, offset: int): (r: bv32)
    requires InBounds(p, offset, 2)
    ensures ByteOf(r, 1) == p[offset] && ByteOf(r, 0) == p[offset + 1]
    ensures r < 0x1_0000
  {
    HalfBytes(p[offset], p[offset + 1]);
    ((p[offset] as bv32) << 8) | (p[offset + 1] as bv32)
  }

  /** The two bytes and the bound pin `LdhNet` down: it is bpf(4)'s `P[k:2]`. */
  lemma LdhNetIsNetHalf(p: seq<bv8>, offset: int)
    requires InBounds(p, offset, 2)
    ensures LdhNet(p, offset) == NetHalf(p, offset)
  {
    HalfUnique(LdhNet(p, offset), p[offset], p[offset + 1]);
  }

  /** `ldb`: the byte at `offset`, zero-extended. */
  function Ldb(p: seq<bv8>, offset: int): (r: bv32)
    requires InBounds(p, offset, 1)
    ensures r < 0x100
    ensures ByteOf(r, 0) == p[offset]
  {
    p[offset] as bv32
  }

  /** `msh`: four times the low nibble of the byte at `offset` (the IP header
      length in bytes), bpf(4)'s `4*(P[k:1]&0xf)`. */
  function Msh(p: seq<bv8>, offset: int): (r: bv32)
    requires InBounds(p, offset, 1)
    ensures r == 4 * ((p[offset] & 0xf) as bv32)
    ensures r % 4 == 0 && r <= 60
  {
    NibbleTimesFour(p[offset]);
    (Ldb(p, offset) & 0xf) << 2
  }

  /** The shipped `ldh` returns the byte swap of what bpf(4) loads, so the two
      agree exactly when both bytes are equal. */
  lemma LdhIsSwappedLdhNet(p: seq<bv8>, offset: int)
    requires InBounds(p, offset, 2)
    ensures Ldh(p, offset) == Be16(LdhNet(p, offset))
    ensures Ldh(p, offset) == LdhNet(p, offset) <==> p[offset] == p[offset + 1]
  {
    SwapPair(p[offset + 1], p[offset]);
    TwoOrders(p[offset], p[offset + 1]);
  }

  lemma SwapPair(b0: bv8, b1: bv8)
    ensures Be16(((b0 as bv32) << 8) | (b1 as bv32)) == Word2(b1, b0)
    ensures Word2(b1, b0) < 0x1_0000
  {
  }

  lemma HalfBytes(b0: bv8, b1: bv8)
    ensures Word2(b0, b1) < 0x1_0000
    ensures ByteOf(Word2(b0, b1), 1) == b0 && ByteOf(Word2(b0, b1), 0) == b1
  {
  }

  lemma HalfUnique(r: bv32, b0: bv8, b1: bv8)
    requires r < 0x1_0000
    requires ByteOf(r, 1) == b0 && ByteOf(r, 0) == b1
    ensures r == Word2(b0, b1)
  {
  }

  lemma TwoOrders(b0: bv8, b1: bv8)
    ensures Word2(b1, b0) == Be16(Word2(b0, b1))
    ensures Word2(b1, b0) == Word2(b0, b1) <==> b0 == b1
  {
  }

  lemma NibbleTimesFour(b: bv8)
    ensures ((b as bv32) & 0xf) << 2 == 4 * ((b & 0xf) as bv32)
    ensures (((b as bv32) & 0xf) << 2) % 4 == 0
    ensures ((b as bv32) & 0xf) << 2 <= 60
  {
  }
}
