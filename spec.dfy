// The SM3 hash as GB/T 32905-2016 defines it, written as pure functions:
// initial value (section 4.1), round constants (4.2), padding (5.2), message
// expansion (5.3.2), compression (5.3.3) and the iteration over blocks (5.3.1).
// The imperative code of lib/alg-sm3.c is proved against these definitions.
module Sm3Spec {
  import opened ByteOrder
  import opened Sm3Primitives

  /** initial_state: the IV of section 4.1. */
  const IV: seq<Word> := [0x7380166f, 0x4914b2b9, 0x172442d7, 0xda8a0600,
                          0xa96f30bc, 0x163138aa, 0xe38dee4d, 0xb0fb0e4e]

  /** T_j for rounds 0..15 and 16..63 (section 4.2). */
  const TEarly: Word := 0x79CC4519
  const TLate: Word := 0x7A879D8A

  /** The round constants exactly as the unrolled rounds of sm3_transform pass
      them, one row per sixteen rounds. */
  const RoundConstants: seq<Word> :=
    [0x79CC4519, 0xF3988A32, 0xE7311465, 0xCE6228CB, 0x9CC45197, 0x3988A32F, 0x7311465E, 0xE6228CBC,
     0xCC451979, 0x988A32F3, 0x311465E7, 0x6228CBCE, 0xC451979C, 0x88A32F39, 0x11465E73, 0x228CBCE6]
    + [0x9D8A7A87, 0x3B14F50F, 0x7629EA1E, 0xEC53D43C, 0xD8A7A879, 0xB14F50F3, 0x629EA1E7, 0xC53D43CE,
       0x8A7A879D, 0x14F50F3B, 0x29EA1E76, 0x53D43CEC, 0xA7A879D8, 0x4F50F3B1, 0x9EA1E762, 0x3D43CEC5]
    + [0x7A879D8A, 0xF50F3B14, 0xEA1E7629, 0xD43CEC53, 0xA879D8A7, 0x50F3B14F, 0xA1E7629E, 0x43CEC53D,
       0x879D8A7A, 0x0F3B14F5, 0x1E7629EA, 0x3CEC53D4, 0x79D8A7A8, 0xF3B14F50, 0xE7629EA1, 0xCEC53D43]
    + [0x9D8A7A87, 0x3B14F50F, 0x7629EA1E, 0xEC53D43C, 0xD8A7A879, 0xB14F50F3, 0x629EA1E7, 0xC53D43CE,
       0x8A7A879D, 0x14F50F3B, 0x29EA1E76, 0x53D43CEC, 0xA7A879D8, 0x4F50F3B1, 0x9EA1E762, 0x3D43CEC5]

  /** The standard's rule: round j uses T_j <<< (j mod 32). */
  function RoundConstantRule(j: Word): Word
    requires j < 64
  {
    Rotate(if j < 16 then TEarly else TLate, j % 32)
  }
  /** The sixteen R1 rounds (lib/alg-sm3.c:135-165) use T_j <<< j. */
  lemma RoundConstantsRows0()
    ensures forall j: Word :: 0 <= j < 16 ==> RoundConstants[j as int] == RoundConstantRule(j)
  {
  }

  /** Rounds 16..31 use T_j <<< j. */
  lemma RoundConstantsRows16()
    ensures forall j: Word :: 16 <= j < 32 ==> RoundConstants[j as int] == RoundConstantRule(j)
  {
  }

  /** Rounds 32..47 use T_j <<< (j - 32). */
  lemma RoundConstantsRows32()
    ensures forall j: Word :: 32 <= j < 48 ==> RoundConstants[j as int] == RoundConstantRule(j)
  {
  }

  /** Rounds 48..63 use T_j <<< (j - 32). */
  lemma RoundConstantsRows48()
    ensures forall j: Word :: 48 <= j < 64 ==> RoundConstants[j as int] == RoundConstantRule(j)
  {
  }

  /** Every literal constant of the unrolled rounds is the standard's T_j <<< (j mod 32). */
  lemma RoundConstantsFollowRule()
    ensures |RoundConstants| == 64
    ensures forall j: Word :: j < 64 ==> RoundConstants[j as int] == RoundConstantRule(j)
  {
    RoundConstantsRows0();
    RoundConstantsRows16();
    RoundConstantsRows32();
    RoundConstantsRows48();
  }

  /** Number of rounds and of schedule words. Named so that the verifier does
      not unroll the recursive definitions below on a literal argument. */
  const NumRounds: nat := 64
  const NumWords: nat := 68

  /** The eight registers A..H of the compression function. */
  datatype Regs = Regs(a: Word, b: Word, c: Word, d: Word, e: Word, f: Word, g: Word, h: Word)

  /** One round of section 5.3.3 with constant tj, message word wj and
      W'_j = wpj: the register shift
      (A..H) := (TT1, A, B <<< 9, C, P0(TT2), E, F <<< 19, G).
      `late` selects FF1/GG1 (rounds 16..63) over FF0/GG0 (rounds 0..15). */
  function Step(x: Regs, tj: Word, wj: Word, wpj: Word, late: bool): Regs
  {
    var a12 := Rotate(x.a, 12);
    var ss1 := Rotate(Add(Add(a12, x.e), tj), 7);
    var ss2 := ss1 ^ a12;
    var tt1 := Add(Add(Add(if late then FF1(x.a, x.b, x.c) else FF0(x.a, x.b, x.c), x.d), ss2), wpj);
    var tt2 := Add(Add(Add(if late then GG1(x.e, x.f, x.g) else GG0(x.e, x.f, x.g), x.h), ss1), wj);
    Regs(tt1, x.a, Rotate(x.b, 9), x.c, P0(tt2), x.e, Rotate(x.f, 19), x.g)
  }

  /** Word i of w follows the expansion recurrence of section 5.3.2:
      W[i] = P1(W[i-16] ^ W[i-9] ^ (W[i-3] <<< 15)) ^ (W[i-13] <<< 7) ^ W[i-6]. */
  predicate Expands(w: seq<Word>, i: int)
    requires 16 <= i < |w|
  {
    w[i] == Expand(w[i - 16], w[i - 9], w[i - 3], w[i - 13], w[i - 6])
  }

  /** The first n words W[0..n) of the expanded message of section 5.3.2. */
  function Expansion(m: seq<Word>, n: nat): (w: seq<Word>)
    requires |m| == 16 && 16 <= n <= 68
    ensures |w| == n && w[..16] == m
    ensures forall i :: 16 <= i < n ==> Expands(w, i)
    decreases n
  {
    if n == 16 then m
    else
      var p := Expansion(m, n - 1);
      var w := p + [Expand(p[n - 17], p[n - 10], p[n - 4], p[n - 14], p[n - 7])];
      assert forall i :: 16 <= i < n ==> Expands(w, i) by {
        forall i | 16 <= i < n
          ensures Expands(w, i)
        {
          if i < n - 1 {
            assert Expands(p, i);
          }
        }
      }
      w
  }

  /** W[0..68): the sixteen message words followed by the 52 expanded ones. */
  function Schedule(m: seq<Word>): (w: seq<Word>)
    requires |m| == 16
    ensures |w| == 68 && w[..16] == m
    ensures forall i :: 16 <= i < 68 ==> Expands(w, i)
  {
    Expansion(m, NumWords)
  }

  /** The registers after the first n rounds over schedule w, starting from x. */
  function Rounds(n: nat, x: Regs, w: seq<Word>): Regs
    requires n <= 64 && |w| == 68
  {
    if n == 0 then x
    else
      var j := n - 1;
      Step(Rounds(j, x, w), RoundConstants[j], w[j], w[j] ^ w[j + 4], j >= 16)
  }

  function ToRegs(v: seq<Word>): Regs
    requires |v| == 8
  {
    Regs(v[0], v[1], v[2], v[3], v[4], v[5], v[6], v[7])
  }

  /** The state words XOR the registers, word by word. */
  function XorRegs(v: seq<Word>, x: Regs): (r: seq<Word>)
    requires |v| == 8
    ensures |r| == 8
  {
    [Xor(v[0], x.a), Xor(v[1], x.b), Xor(v[2], x.c), Xor(v[3], x.d),
     Xor(v[4], x.e), Xor(v[5], x.f), Xor(v[6], x.g), Xor(v[7], x.h)]
  }

  /** CF(V, B): the new state is V XOR the registers after 64 rounds
      (CompressDef). It is written through CompressAt at depth 1 so that a
      proof about whole messages does not unfold the 64 rounds unless it
      asks for them with CompressDef. */
  function Compress(v: seq<Word>, block: seq<Byte>): (r: seq<Word>)
    requires |v| == 8 && |block| == 64
    ensures |r| == 8
  {
    CompressAt(v, block, 1)
  }

  /** CF(V, B) reached after depth trivial unfoldings: the depth only
      counts unfoldings and does not change the value (CompressAtAnyDepth). */
  function CompressAt(v: seq<Word>, block: seq<Byte>, depth: nat): (r: seq<Word>)
    requires |v| == 8 && |block| == 64
    ensures |r| == 8
  {
    if depth == 0 then XorRegs(v, Rounds(NumRounds, ToRegs(v), Schedule(DecodeWords(block))))
    else CompressAt(v, block, depth - 1)
  }

  lemma {:induction false} CompressAtAnyDepth(v: seq<Word>, block: seq<Byte>, depth: nat)
    requires |v| == 8 && |block| == 64
    ensures CompressAt(v, block, depth) == CompressAt(v, block, 0)
  {
    if depth > 0 {
      CompressAtAnyDepth(v, block, depth - 1);
    }
  }

  /** The definition of CF(V, B) of section 5.3. */
  lemma CompressDef(v: seq<Word>, block: seq<Byte>)
    requires |v| == 8 && |block| == 64
    ensures Compress(v, block) == XorRegs(v, Rounds(NumRounds, ToRegs(v), Schedule(DecodeWords(block))))
  {
    CompressAtAnyDepth(v, block, 1);
  }

  /** The chaining value after compressing the whole blocks of m in order. */
  function Chain(v: seq<Word>, m: seq<Byte>): (r: seq<Word>)
    requires |v| == 8 && |m| % 64 == 0
    ensures |r| == 8
    decreases |m|
  {
    if |m| == 0 then v else Compress(Chain(v, m[..|m| - 64]), m[|m| - 64..])
  }

  lemma BlockAligned(p: int)
    requires p % 64 == 0
    ensures (p + 64) % 64 == 0 && (p - 64) % 64 == 0
  {
  }

  /** Chain unfolded once: the last block is compressed into the value
      reached by the blocks before it. */
  lemma ChainLast(v: seq<Word>, m: seq<Byte>)
    requires |v| == 8 && |m| % 64 == 0 && |m| >= 64
    ensures Chain(v, m) == Compress(Chain(v, m[..|m| - 64]), m[|m| - 64..])
  {
  }

  /** Absorbing one more block compresses it into the chaining value. */
  lemma ChainSnoc(v: seq<Word>, a: seq<Byte>, blk: seq<Byte>)
    requires |v| == 8 && |a| % 64 == 0 && |blk| == 64
    ensures Chain(v, a + blk) == Compress(Chain(v, a), blk)
  {
    var q := a + blk;
    BlockAligned(|a|);
    assert q[..|q| - 64] == a;
    assert q[|q| - 64..] == blk;
    ChainLast(v, q);
  }

  /** ChainSnoc for the block at offset p of a longer message. */
  lemma ChainStep(v: seq<Word>, m: seq<Byte>, p: nat)
    requires |v| == 8 && p % 64 == 0 && p + 64 <= |m|
    ensures Chain(v, m[..p + 64]) == Compress(Chain(v, m[..p]), m[p..p + 64])
  {
    assert m[..p + 64] == m[..p] + m[p..p + 64];
    ChainSnoc(v, m[..p], m[p..p + 64]);
  }

  /** Merkle-Damgard chaining: a message of whole blocks may be absorbed in
      any two block-aligned parts. */
  lemma {:induction false} ChainAppend(v: seq<Word>, a: seq<Byte>, b: seq<Byte>)
    requires |v| == 8 && |a| % 64 == 0 && |b| % 64 == 0
    ensures Chain(v, a + b) == Chain(Chain(v, a), b)
    decreases |b|
  {
    if |b| == 0 {
      assert a + b == a;
    } else {
      var ab, b', last := a + b, b[..|b| - 64], b[|b| - 64..];
      assert |b'| % 64 == 0;
      assert ab[..|ab| - 64] == a + b';
      assert ab[|ab| - 64..] == last;
      ChainLast(v, ab);
      ChainAppend(v, a, b');
      ChainLast(Chain(v, a), b);
    }
  }

  /** The message length in bits, as the 64-bit counter holds it. */
  function Bits(n: nat): (c: int)
    ensures 0 <= c < TWO_64
  {
    (8 * n) % TWO_64
  }

  function Zeros(n: nat): (z: seq<Byte>)
    ensures |z| == n && forall i :: 0 <= i < n ==> z[i] == 0
  {
    seq(n, _ => 0)
  }

  /** The number of zero bytes section 5.2 puts after the 0x80 byte of a
      message of n bytes, so that the bit count starts 56 bytes into a block:
      within the last block when it has room for the 0x80 byte and the
      count, otherwise running on through one more block. */
  function ZeroBytes(n: nat): (k: nat)
    ensures k < 64 && (n + 9 + k) % 64 == 0
  {
    if n % 64 < 56 then 55 - n % 64 else 119 - n % 64
  }

  /** What section 5.2 appends to a message of n bytes: the bit 1 (byte 0x80),
      the zero bytes, and the bit length as a 64-bit big-endian number. */
  function Padding(n: nat): (p: seq<Byte>)
    ensures |p| == 9 + ZeroBytes(n) && (n + |p|) % 64 == 0
  {
    [0x80] + Zeros(ZeroBytes(n)) + Be64Enc(Bits(n))
  }

  /** The padding is the byte 0x80, zero bytes, and the 64-bit big-endian
      bit count: 9 to 72 bytes in all. */
  lemma PaddingShape(n: nat)
    ensures 9 <= |Padding(n)| <= 72 && Padding(n)[0] == 0x80
    ensures Padding(n)[|Padding(n)| - 8..] == Be64Enc(Bits(n))
    ensures forall i :: 1 <= i < |Padding(n)| - 8 ==> Padding(n)[i] == 0
  {
    var p, z, e := Padding(n), Zeros(ZeroBytes(n)), Be64Enc(Bits(n));
    assert p == [0x80] + z + e;
    assert p[|p| - 8..] == e;
  }

  function Pad(m: seq<Byte>): (p: seq<Byte>)
    ensures |p| % 64 == 0 && |p| >= |m| + 9 && p[..|m|] == m
  {
    m + Padding(|m|)
  }

  /** SM3(m): the 32-byte big-endian encoding of the final chaining value
      (HashDef). Like Compress, it is written through a depth counter so that
      proofs that only pass digests around do not unfold the hash. */
  function Hash(m: seq<Byte>): (d: seq<Byte>)
    ensures |d| == 32
  {
    HashAt(m, 1)
  }

  function HashAt(m: seq<Byte>, depth: nat): (d: seq<Byte>)
    ensures |d| == 32
  {
    if depth == 0 then EncodeWords(Chain(IV, Pad(m))) else HashAt(m, depth - 1)
  }

  /** The definition of SM3(m) of section 5. */
  lemma HashDef(m: seq<Byte>)
    ensures Hash(m) == EncodeWords(Chain(IV, Pad(m)))
  {
    assert HashAt(m, 1) == HashAt(m, 0);
  }

  /** The whole 64-byte blocks at the start of m. */
  function Blocks(m: seq<Byte>): (b: seq<Byte>)
    ensures |b| % 64 == 0 && |b| == |m| - |m| % 64 && b == m[..|b|]
  {
    m[..|m| - |m| % 64]
  }

  /** The bytes of m after its last whole block: what sm3_ctx.buf holds. */
  function Tail(m: seq<Byte>): (t: seq<Byte>)
    ensures |t| == |m| % 64 < 64 && m == Blocks(m) + t
  {
    m[|m| - |m| % 64..]
  }

  /** Splitting m at a block boundary k with fewer than 64 bytes after it
      splits it into its blocks and its tail. */
  lemma SplitAt(m: seq<Byte>, k: nat)
    requires k % 64 == 0 && k <= |m| < k + 64
    ensures Blocks(m) == m[..k] && Tail(m) == m[k..]
  {
    var q := k / 64;
    assert |m| == 64 * q + (|m| - k);
    assert |m| % 64 == |m| - k;
  }

  /** count += (uint64_t)(len) << 3, both sides modulo 2^64, is the bit
      count of the longer message. */
  lemma BitsAdd(n: nat, len: nat)
    ensures (Bits(n) + (8 * len) % TWO_64) % TWO_64 == Bits(n + len)
  {
    var k1 := (8 * n) / TWO_64;
    var k2 := (8 * len) / TWO_64;
    assert Bits(n) + (8 * len) % TWO_64 == 8 * (n + len) - TWO_64 * (k1 + k2);
  }

  /** ZeroBytes(n) is the fewest zero bytes that bring n + 1 bytes to 56
      modulo 64. */
  lemma ZeroBytesFewest(n: nat, k: nat)
    requires (n + 1 + k) % 64 == 56
    ensures ZeroBytes(n) <= k
  {
  }

  /** Padding(n) when fewer than 56 bytes of the last block are used. */
  lemma PaddingShort(n: nat)
    requires n % 64 < 56
    ensures Padding(n) == [0x80] + Zeros(55 - n % 64) + Be64Enc(Bits(n))
  {
  }

  /** Padding(n) when 56 or more bytes of the last block are used: the zeros
      run on through a whole second block up to the bit count. */
  lemma PaddingLong(n: nat)
    requires n % 64 >= 56
    ensures Padding(n) == [0x80] + (Zeros(63 - n % 64) + Zeros(56)) + Be64Enc(Bits(n))
  {
    assert Zeros(119 - n % 64) == Zeros(63 - n % 64) + Zeros(56);
  }

  /** A message ending less than 56 bytes into a block is padded within that
      block: one more compression. */
  lemma PadOneBlock(m: seq<Byte>)
    requires |m| % 64 < 56
    ensures Pad(m) == Blocks(m) + (Tail(m) + ([0x80] + Zeros(55 - |m| % 64)) + Be64Enc(Bits(|m|)))
    ensures |Tail(m) + ([0x80] + Zeros(55 - |m| % 64)) + Be64Enc(Bits(|m|))| == 64
  {
    var b, t, r := Blocks(m), Tail(m), |m| % 64;
    assert Pad(m) == b + t + Padding(|m|);
    PaddingShort(|m|);
    RegroupOne(b, t, Zeros(55 - r), Be64Enc(Bits(|m|)));
  }

  /** A message ending 56 or more bytes into a block needs a second block
      for the bit count: two more compressions. */
  lemma PadTwoBlocks(m: seq<Byte>)
    requires |m| % 64 >= 56
    ensures Pad(m) == Blocks(m) + (Tail(m) + ([0x80] + Zeros(63 - |m| % 64))) + (Zeros(56) + Be64Enc(Bits(|m|)))
    ensures |Tail(m) + ([0x80] + Zeros(63 - |m| % 64))| == 64
  {
    var b, t, r := Blocks(m), Tail(m), |m| % 64;
    assert Pad(m) == b + t + Padding(|m|);
    PaddingLong(|m|);
    RegroupTwo(b, t, Zeros(63 - r), Zeros(56), Be64Enc(Bits(|m|)));
  }

  /** The last block of Pad(m): what remains of the message's tail block
      after the 0x80 byte and the zeros (or, when the bit count spills into
      a block of its own, 56 zero bytes), followed by the bit count. */
  lemma PadLastBlock(m: seq<Byte>)
    ensures |Pad(m)| >= 64
    ensures Pad(m)[|Pad(m)| - 64..] == LastHead(m) + Be64Enc(Bits(|m|))
  {
    var e := Be64Enc(Bits(|m|));
    if |m| % 64 < 56 {
      PadOneBlock(m);
      SuffixOf(Blocks(m), Tail(m) + ([0x80] + Zeros(55 - |m| % 64)) + e);
    } else {
      PadTwoBlocks(m);
      SuffixOf(Blocks(m) + (Tail(m) + ([0x80] + Zeros(63 - |m| % 64))), Zeros(56) + e);
    }
  }

  /** The first 56 bytes of the last block of Pad(m). */
  function LastHead(m: seq<Byte>): (h: seq<Byte>)
    ensures |h| == 56
  {
    if |m| % 64 < 56 then Tail(m) + ([0x80] + Zeros(55 - |m| % 64)) else Zeros(56)
  }

  lemma SuffixOf(p: seq<Byte>, x: seq<Byte>)
    requires |x| == 64
    ensures (p + x)[|p + x| - 64..] == x
  {
  }

  lemma RegroupOne(b: seq<Byte>, t: seq<Byte>, z: seq<Byte>, e: seq<Byte>)
    ensures b + t + ([0x80] + z + e) == b + (t + ([0x80] + z) + e)
  {
  }

  lemma RegroupTwo(b: seq<Byte>, t: seq<Byte>, z: seq<Byte>, y: seq<Byte>, e: seq<Byte>)
    ensures b + t + ([0x80] + (z + y) + e) == b + (t + ([0x80] + z)) + (y + e)
  {
  }

  /** sm3_pad when fewer than 56 bytes are buffered: the padding fits in the
      current block, so Pad adds exactly one compression to Chain. */
  lemma PadChainOne(v: seq<Word>, m: seq<Byte>)
    requires |v| == 8 && |m| % 64 < 56
    ensures |Tail(m) + ([0x80] + Zeros(55 - |m| % 64)) + Be64Enc(Bits(|m|))| == 64
    ensures Chain(v, Pad(m))
         == Compress(Chain(v, Blocks(m)), Tail(m) + ([0x80] + Zeros(55 - |m| % 64)) + Be64Enc(Bits(|m|)))
  {
    PadOneBlock(m);
    ChainSnoc(v, Blocks(m), Tail(m) + ([0x80] + Zeros(55 - |m| % 64)) + Be64Enc(Bits(|m|)));
  }

  /** sm3_pad when 56 or more bytes are buffered: the bit count spills into a
      second block, so Pad adds exactly two compressions to Chain. */
  lemma PadChainTwo(v: seq<Word>, m: seq<Byte>)
    requires |v| == 8 && |m| % 64 >= 56
    ensures |Tail(m) + ([0x80] + Zeros(63 - |m| % 64))| == 64
    ensures Chain(v, Pad(m))
         == Compress(Compress(Chain(v, Blocks(m)), Tail(m) + ([0x80] + Zeros(63 - |m| % 64))),
                     Zeros(56) + Be64Enc(Bits(|m|)))
  {
    var b := Blocks(m);
    var first := Tail(m) + ([0x80] + Zeros(63 - |m| % 64));
    var last := Zeros(56) + Be64Enc(Bits(|m|));
    PadTwoBlocks(m);
    BlockAligned(|b|);
    assert |b + first| % 64 == 0;
    ChainSnoc(v, b, first);
    ChainSnoc(v, b + first, last);
  }
}
