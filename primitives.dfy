// The word-level macros of lib/alg-sm3.c: rotation, the permutations P0 and P1
// (section 4.4 of GB/T 32905-2016), the boolean functions FF and GG (section
// 4.3) and one step of the message expansion (section 5.3.2).
module Sm3Primitives {
  import opened ByteOrder

  /** ROTATE(a, n): circular left rotation of a 32-bit word by 1 <= n <= 31,
      the only amounts lib/alg-sm3.c passes; the C shift by 32 - n would be
      undefined for n = 0. Other amounts leave the word unchanged, which makes
      Rotate(x, 0) the standard's x <<< 0. For every n up to 31 the result is
      x shifted left n places inside a 64-bit word, with the bits that leave
      the low half folded back into it: the top n bits come round to the
      bottom. */
  function Rotate(x: Word, n: Word): (r: Word)
    ensures n <= 31 ==> r as bv64 == ((x as bv64 << n) & 0xFFFF_FFFF) | ((x as bv64 << n) >> 32)
  {
    if 1 <= n <= 31 then (x << n) | (x >> (32 - n)) else x
  }

  /** Rotating back by the complementary amount restores the word, for each
      rotation amount the C macros apply to data words. */
  lemma RotateInverse(x: Word, n: Word)
    requires n == 7 || n == 9 || n == 12 || n == 15 || n == 17 || n == 19 || n == 23
    ensures Rotate(Rotate(x, n), 32 - n) == x
  {
    if n == 7 { assert Rotate(Rotate(x, 7), 25) == x; }
    else if n == 9 { assert Rotate(Rotate(x, 9), 23) == x; }
    else if n == 12 { assert Rotate(Rotate(x, 12), 20) == x; }
    else if n == 15 { assert Rotate(Rotate(x, 15), 17) == x; }
    else if n == 17 { assert Rotate(Rotate(x, 17), 15) == x; }
    else if n == 19 { assert Rotate(Rotate(x, 19), 13) == x; }
    else { assert Rotate(Rotate(x, 23), 9) == x; }
  }

  /** Addition of uint32_t values, modulo 2^32. Kept as a named function so
      that sums are compared as terms rather than bit by bit. */
  function Add(x: Word, y: Word): Word
  {
    x + y
  }

  /** Exclusive or of two words, named for the same reason as Add. */
  function Xor(x: Word, y: Word): Word
  {
    x ^ y
  }

  /** P0(X) = X ^ (X <<< 9) ^ (X <<< 17). */
  function P0(x: Word): Word
  {
    x ^ Rotate(x, 9) ^ Rotate(x, 17)
  }

  /** P1(X) = X ^ (X <<< 15) ^ (X <<< 23). */
  function P1(x: Word): Word
  {
    x ^ Rotate(x, 15) ^ Rotate(x, 23)
  }

  /** FF0 of rounds 0..15: each bit of the result is set exactly when an odd
      number of the bits of X, Y and Z in that position are set. */
  function FF0(x: Word, y: Word, z: Word): (r: Word)
    ensures r == (x & !y & !z) | (!x & y & !z) | (!x & !y & z) | (x & y & z)
  {
    x ^ y ^ z
  }

  /** GG0 of rounds 0..15, the same odd-parity function as FF0. */
  function GG0(x: Word, y: Word, z: Word): (r: Word)
    ensures r == (x & !y & !z) | (!x & y & !z) | (!x & !y & z) | (x & y & z)
  {
    x ^ y ^ z
  }

  /** FF1 of rounds 16..63, written in the C macro as (X & Y) | ((X | Y) & Z):
      the standard's majority (X&Y)|(X&Z)|(Y&Z). */
  function FF1(x: Word, y: Word, z: Word): (r: Word)
    ensures r == (x & y) | (x & z) | (y & z)
  {
    (x & y) | ((x | y) & z)
  }

  /** GG1 of rounds 16..63, written in the C macro as Z ^ (X & (Y ^ Z)): the
      standard's choice (X&Y)|(~X&Z). */
  function GG1(x: Word, y: Word, z: Word): (r: Word)
    ensures r == (x & y) | (!x & z)
  {
    z ^ (x & (y ^ z))
  }

  /** EXPAND(W0, W7, W13, W3, W10): the next schedule word from the words 16, 9,
      3, 13 and 6 places back. The 15-bit rotation applies to the third argument
      (three places back) and the 7-bit rotation to the fourth (13 places back). */
  function Expand(w0: Word, w7: Word, w13: Word, w3: Word, w10: Word): Word
  {
    P1(w0 ^ w7 ^ Rotate(w13, 15)) ^ Rotate(w3, 7) ^ w10
  }
}
