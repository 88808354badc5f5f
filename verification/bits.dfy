/** Machine words, bytes and the bit operations the context scanner is built from:
    the `__ROL64`/`__ROR64` macros, little-endian word <-> byte conversion, bytewise XOR,
    and the BTC bit-complement primitive. */
module Bits {

  type byte = bv8
  type word = bv64

  const TWO_32: nat := 0x1_0000_0000
  const TWO_64: nat := 0x1_0000_0000_0000_0000

  /** An unsigned 32-bit value (ULONG). */
  type u32 = n: nat | n < 0x1_0000_0000

  /** An unsigned 64-bit value (ULONG64, SIZE_T, a pointer). */
  type u64 = n: nat | n < 0x1_0000_0000_0000_0000

  /** The shift the rotate macros use for an amount `n`. The macros mask the amount with
      `& 0xFF` and then take it modulo 64 (`MaskThenModulo`); since 256 is a multiple of 64 this
      is `n` modulo 64. `n` may be the two's-complement reading of an unsigned 32-bit expression,
      and the Euclidean `%` of Dafny is exactly what the mask does to it. */
  function RotCount(n: int): (s: nat)
    ensures s < 64
  {
    n % 64
  }

  lemma ModuloStep(q: int, r: int)
    ensures (q * 64 + r) % 64 == r % 64
  {
  }

  /** Masking with 0xFF before reducing modulo 64 changes nothing. */
  lemma {:induction false} MaskThenModulo(n: int)
    ensures (n % 256) % 64 == RotCount(n)
  {
    var q := n / 256;
    var r := n % 256;
    assert n == (q * 4) * 64 + r;
    ModuloStep(q * 4, r);
  }

  /** One-bit rotations; the rotate macros are built from these below. */
  function RotL1(x: word): word {
    (x << 1) | (x >> 63)
  }

  function RotR1(x: word): word {
    (x >> 1) | (x << 63)
  }

  /** Rotation left by `s` bits, one bit at a time. For `s` in 1..63 this is the macro's
      `(x << s) | (x >> (64 - s))`; for `s == 0` it is `x`. */
  function RotateLeft(x: word, s: nat): word
    decreases s
  {
    if s == 0 then x else RotL1(RotateLeft(x, s - 1))
  }

  function RotateRight(x: word, s: nat): word
    decreases s
  {
    if s == 0 then x else RotateRight(RotR1(x), s - 1)
  }

  /** `__ROL64(x, n)`. For `s == 0` the macro shifts right by 64, which x64 masks to a shift by
      0, so the macro then yields `x | x == x`, the identity, as a rotation by 0 does. */
  function Rol(x: word, n: int): word {
    RotateLeft(x, RotCount(n))
  }

  /** `__ROR64(x, n)`, with the same reading of the shift-by-64 case. */
  function Ror(x: word, n: int): word {
    RotateRight(x, RotCount(n))
  }

  lemma OneBitInverse(x: word)
    ensures RotR1(RotL1(x)) == x
    ensures RotL1(RotR1(x)) == x
  {
  }

  lemma {:induction false} RotateRightUndoesLeft(x: word, s: nat)
    ensures RotateRight(RotateLeft(x, s), s) == x
    decreases s
  {
    if s > 0 {
      var y := RotateLeft(x, s - 1);
      OneBitInverse(y);
      RotateRightUndoesLeft(x, s - 1);
    }
  }

  lemma {:induction false} RotateLeftUndoesRight(x: word, s: nat)
    ensures RotateLeft(RotateRight(x, s), s) == x
    decreases s
  {
    if s > 0 {
      RotateLeftUndoesRight(RotR1(x), s - 1);
      OneBitInverse(x);
    }
  }

  /** Rotations compose by adding their amounts. */
  lemma {:induction false} RotateLeftAdds(x: word, a: nat, b: nat)
    ensures RotateLeft(RotateLeft(x, a), b) == RotateLeft(x, a + b)
    decreases b
  {
    if b > 0 {
      RotateLeftAdds(x, a, b - 1);
    }
  }

  /** Two macro rotations compose into one rotation by the sum of their reduced amounts. */
  lemma RolAdds(x: word, m: int, n: int)
    ensures Rol(Rol(x, m), n) == RotateLeft(x, RotCount(m) + RotCount(n))
  {
    RotateLeftAdds(x, RotCount(m), RotCount(n));
  }

  /** The one-bit definition agrees with the macro's shift-or form; checked for every word at
      amount 1, the step the recursion is built from. */
  lemma RolMatchesMacro(x: word)
    ensures Rol(x, 1) == (x << 1) | (x >> 63)
    ensures Ror(x, 1) == (x >> 1) | (x << 63)
  {
  }

  lemma RorUndoesRol(x: word, n: int)
    ensures Ror(Rol(x, n), n) == x
  {
    RotateRightUndoesLeft(x, RotCount(n));
  }

  lemma RolUndoesRor(x: word, n: int)
    ensures Rol(Ror(x, n), n) == x
  {
    RotateLeftUndoesRight(x, RotCount(n));
  }

  /** The rotate amount only depends on `n` modulo 64; in particular the 32-bit wrap-around of
      an unsigned amount such as `FieldIndex + Index` never changes a rotation. */
  lemma {:induction false} RotCountIgnoresWrap32(n: int)
    ensures RotCount(n % TWO_32) == RotCount(n)
  {
    var q := n / TWO_32;
    var r := n % TWO_32;
    assert n == (q * 0x400_0000) * 64 + r;
    ModuloStep(q * 0x400_0000, r);
  }

  /** Byte `j` (little-endian) of a word. */
  function ByteOf(w: word, j: nat): byte {
    if j == 0 then (w & 0xFF) as byte
    else if j == 1 then ((w >> 8) & 0xFF) as byte
    else if j == 2 then ((w >> 16) & 0xFF) as byte
    else if j == 3 then ((w >> 24) & 0xFF) as byte
    else if j == 4 then ((w >> 32) & 0xFF) as byte
    else if j == 5 then ((w >> 40) & 0xFF) as byte
    else if j == 6 then ((w >> 48) & 0xFF) as byte
    else ((w >> 56) & 0xFF) as byte
  }

  /** The eight bytes of a word, least significant first (a little-endian store). */
  function WordBytes(w: word): (b: seq<byte>)
    ensures |b| == 8
  {
    seq(8, j requires 0 <= j < 8 => ByteOf(w, j))
  }

  /** The 32-bit value stored little-endian in four bytes (an unaligned `*(PULONG)p`). */
  function U32Of(b: seq<byte>): (v: u32)
    requires |b| == 4
  {
    (b[0] as nat) + 0x100 * (b[1] as nat) + 0x1_0000 * (b[2] as nat) + 0x100_0000 * (b[3] as nat)
  }

  lemma XorCancels(x: word, y: word)
    ensures x ^ (x ^ y) == y
  {
  }

  /** The word at byte address `a` of memory `m`: an unaligned little-endian `*(PULONG64)p`. */
  function WordAt(m: seq<byte>, a: nat): word
    requires a + 8 <= |m|
  {
    (m[a] as word) | ((m[a + 1] as word) << 8) | ((m[a + 2] as word) << 16) | ((m[a + 3] as word) << 24)
    | ((m[a + 4] as word) << 32) | ((m[a + 5] as word) << 40) | ((m[a + 6] as word) << 48)
    | ((m[a + 7] as word) << 56)
  }

  /** Loading the word a little-endian store wrote gives the word back. */
  lemma WordAtWordBytes(w: word)
    ensures WordAt(WordBytes(w), 0) == w
  {
  }

  /** Storing a loaded word writes back the eight bytes it was loaded from. */
  lemma WordBytesWordAt(m: seq<byte>, a: nat)
    requires a + 8 <= |m|
    ensures WordBytes(WordAt(m, a)) == m[a..a + 8]
  {
  }

  /** Bytewise XOR of two equally long byte strings. */
  function XorBytes(a: seq<byte>, b: seq<byte>): (r: seq<byte>)
    requires |a| == |b|
    ensures |r| == |a|
    ensures forall i {:trigger r[i]} :: 0 <= i < |r| ==> r[i] == a[i] ^ b[i]
  {
    seq(|a|, i requires 0 <= i < |a| => a[i] ^ b[i])
  }

  /** XOR with the same key stream twice is the identity. */
  lemma XorBytesTwice(a: seq<byte>, k: seq<byte>)
    requires |a| == |k|
    ensures XorBytes(XorBytes(a, k), k) == a
  {
  }

  /** `BTC r/m64, r64` with a register destination (Intel SDM Vol. 2A, "BTC — Bit Test and
      Complement"): the bit of `base` selected by `offset` modulo 64 is complemented. */
  function Btc(base: word, offset: word): word {
    base ^ ((1 as word) << (offset & 63))
  }

  /** `PgBlock->Btc64(k, k)`: the key-mixing step of newer guardians. */
  function Btc64(k: word): word {
    Btc(k, k)
  }

  /** Complementing the same bit twice restores the word. */
  lemma BtcInvolution(x: word, offset: word)
    ensures Btc(Btc(x, offset), offset) == x
  {
  }

  /** Btc64 changes exactly one bit: the one numbered by the key's own low six bits. */
  lemma Btc64FlipsOneBit(k: word)
    ensures Btc64(k) != k
    ensures Btc64(k) ^ k == (1 as word) << (k & 63)
  {
  }

  /** Four values: key 0 complements bit 0, key 1 bit 1, key 63 the top bit, and key 64 bit 0
      again, because only the key's low six bits name the bit. */
  lemma Btc64Examples()
    ensures Btc64(0) == 1
    ensures Btc64(1) == 3
    ensures Btc64(63) == 0x8000_0000_0000_003F
    ensures Btc64(64) == 65
  {
  }
}
