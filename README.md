# SM3 and HMAC-SM3 of libxcrypt, in Dafny

This project models the SM3 hash of libxcrypt's `lib/alg-sm3.c` and proves it
correct against the hash that GB/T 32905-2016 defines. It also models the
HMAC-SM3 interface of `lib/alg-sm3-hmac.h` and the `explicit_bzero` of
`lib/util-xbzero.c`.

The model has two levels.

- `Sm3Spec` (spec.dfy) is the standard, written as pure functions:
  - the initial value and the round constants;
  - the register step of one round, `Step`;
  - the message expansion `Schedule`;
  - the compression function `Compress` (CF);
  - the chaining over whole blocks, `Chain`;
  - the padding `Pad`, and the hash `Hash(m) = EncodeWords(Chain(IV, Pad(m)))`.
- The imperative code is modelled in the form the C code has:
  - `Sm3Primitives` (primitives.dfy) holds the macros `ROTATE`, `P0`, `P1`, `FF0`/`FF1`, `GG0`/`GG1` and `EXPAND`.
  - `ByteOrder` (byteorder.dfy) holds big-endian encoding.
  - `Sm3` (sm3.dfy) holds the vector codecs and `sm3_transform`. The transform is a loop over groups of four unrolled lines. Each line is `RND` on the registers in that line's argument order, followed by `EXPAND` into a 16-word rolling window, as in lib/alg-sm3.c. This is proved equal to CF.
  - `Sm3Context` (context.dfy) holds `sm3_ctx`. It is a class whose `state`, `count` and `buf` the methods update in place. A ghost field `absorbed` records the input, and the invariant `Valid()` says:
    - `state` is the chaining value of the whole blocks of the input;
    - `count` is its bit length modulo 2^64;
    - `buf` starts with the bytes after the last whole block.
  - `Sm3Hmac` (hmac.dfy) holds HMAC-SM3.
  - `Xbzero` (xbzero.dfy) holds `explicit_bzero`.

`Sm3Context.Ctx.Update` and `Sm3Context.Ctx.Final` are proved to output
`Hash` of everything input, however the input is split across calls. The HMAC
methods are proved to output `Hmac(key, data)` of section 2 of RFC 2104.

## Model

| member | source | states |
|---|---|---|
| Sm3Primitives.RotateInverse | lib/alg-sm3.c:24 | Rotating a word left by n and then by 32 - n gives it back, for each amount the macros apply to data words. |
| Sm3Primitives.Rotate | lib/alg-sm3.c:24 | ROTATE(a, n) for 0 <= n <= 31 is a circular left shift: a shifted left n places inside a 64-bit word, with the bits above the low 32 folded back into it, so its top n bits come round to the bottom. |
| Sm3Primitives.P0 | lib/alg-sm3.c:26 | The definition P0(X) = X ^ (X <<< 9) ^ (X <<< 17) of the standard; it has no contract of its own. |
| Sm3Primitives.P1 | lib/alg-sm3.c:27 | The definition P1(X) = X ^ (X <<< 15) ^ (X <<< 23) of the standard; it has no contract of its own. |
| Sm3Primitives.FF0 | lib/alg-sm3.c:29 | Each bit of FF0(X, Y, Z) is set exactly when an odd number of the bits of X, Y and Z at that position are set. |
| Sm3Primitives.GG0 | lib/alg-sm3.c:30 | GG0 is the same odd-parity function as FF0. |
| Sm3Primitives.FF1 | lib/alg-sm3.c:32 | FF1 as the macro writes it, (X & Y) \| ((X \| Y) & Z), is the majority function (X&Y)\|(X&Z)\|(Y&Z) of the standard. |
| Sm3Primitives.GG1 | lib/alg-sm3.c:33 | GG1 as the macro writes it, Z ^ (X & (Y ^ Z)), is the choice function (X&Y)\|(~X&Z) of the standard. |
| Sm3Primitives.Expand | lib/alg-sm3.c:35-36 | The definition EXPAND(W0, W7, W13, W3, W10) = P1(W0 ^ W7 ^ (W13 <<< 15)) ^ (W3 <<< 7) ^ W10; it has no contract of its own. Its meaning as the schedule recurrence is stated by Sm3.WindowNext. |
| Sm3.Rnd | lib/alg-sm3.c:38-51 | RND keeps A, C, E and G, and rotates B by 9 and F by 19. Its partner Sm3.RndIsStep relates the result to the standard's round. |
| ByteOrder.Be32Enc | lib/alg-sm3.c:70-71 | be32enc writes 4 bytes; ByteOrder.Be32DecEnc and ByteOrder.Be32EncDec make it the inverse of be32dec. |
| ByteOrder.Be32Dec | lib/alg-sm3.c:89-90 | be32dec puts the first byte in the top 8 bits of the word, then the second, the third, and the last byte in the low 8 bits. |
| ByteOrder.Be64Enc | lib/alg-sm3.c:378 | be64enc of the bit counter is 8 bytes, the high 32-bit half first, each half big-endian. The contract states only the length. |
| ByteOrder.EncodeWords | lib/alg-sm3.c:59-76 | The meaning of sm3_be32enc_vect: an encoding of n words is 4n bytes, each word big-endian in order (see EncodeWordsAt). |
| ByteOrder.DecodeWords | lib/alg-sm3.c:78-95 | The meaning of sm3_be32dec_vect: a decoding of 4n bytes is n words (see DecodeWordsAt). |
| ByteOrder.Be32DecEnc | lib/alg-sm3.c:89-90 | be32dec of the four bytes be32enc writes gives back the word. |
| ByteOrder.Be32EncDec | lib/alg-sm3.c:70-71 | be32enc of the word be32dec reads gives back the four bytes. |
| ByteOrder.EncodeWordsAt | lib/alg-sm3.c:63-76 | Word i of a vector is encoded, most significant byte first, at bytes 4i to 4i+4 of the encoding. |
| ByteOrder.DecodeWordsAt | lib/alg-sm3.c:82-95 | Word i of a decoding is the big-endian value of bytes 4i to 4i+4. |
| ByteOrder.DecodeEncodeWords | lib/alg-sm3.c:59-95 | Decoding the encoding of a word vector gives the vector back. |
| ByteOrder.EncodeDecodeWords | lib/alg-sm3.c:59-95 | Encoding the decoding of a byte string whose length is a multiple of 4 gives the bytes back. |
| ByteOrder.EncodeWordsAppend | lib/alg-sm3.c:67-75 | The encoding of two vectors one after the other is the two encodings one after the other. |
| ByteOrder.EncodeWordsPairs | lib/alg-sm3.c:70-73 | One more iteration, two more words, appends their 8 big-endian bytes to the encoding. |
| ByteOrder.DecodeWordsFrom | lib/alg-sm3.c:88-91 | A vector that agrees with every aligned group of four bytes is the decoding of those bytes. |
| Sm3.Be32DecVect | lib/alg-sm3.c:82-95 | The first 2·len words of dst become the big-endian decoding of the 8·len bytes; the other words are unchanged. |
| Sm3.Be32EncAt | lib/alg-sm3.c:70 | be32enc(&dst[at], w) writes the four big-endian bytes of w at `at` and leaves the other bytes unchanged. |
| Sm3.Be32EncPair | lib/alg-sm3.c:70-71 | One iteration writes the encodings of two words at bytes at..at+8 and leaves the bytes after them unchanged. |
| Sm3.Be32EncVect | lib/alg-sm3.c:63-76 | The first 8·len bytes of dst become the big-endian encoding of the first 2·len words; the other bytes are unchanged. |
| Sm3Spec.RoundConstantsRows0 | lib/alg-sm3.c:135-166 | The constants of rounds 0..15 are 0x79CC4519 <<< j. |
| Sm3Spec.RoundConstantsRows16 | lib/alg-sm3.c:167-198 | The constants of rounds 16..31 are 0x7A879D8A <<< j. |
| Sm3Spec.RoundConstantsRows32 | lib/alg-sm3.c:199-230 | The constants of rounds 32..47 are 0x7A879D8A <<< (j - 32). |
| Sm3Spec.RoundConstantsRows48 | lib/alg-sm3.c:231-250 | The constants of rounds 48..63 are 0x7A879D8A <<< (j - 32). |
| Sm3Spec.RoundConstantsFollowRule | lib/alg-sm3.c:135-250 | Each of the 64 literal constants of the unrolled rounds is T_j <<< (j mod 32), with T_j = 0x79CC4519 below round 16 and 0x7A879D8A from round 16. |
| Sm3Spec.Expansion | lib/alg-sm3.c:35-36 | The first n schedule words start with the 16 message words. Every later word W[i] is P1(W[i-16] ^ W[i-9] ^ (W[i-3] <<< 15)) ^ (W[i-13] <<< 7) ^ W[i-6]. |
| Sm3Spec.Schedule | lib/alg-sm3.c:35-36 | W[0..68) starts with the message words and follows the expansion recurrence from W[16] to W[67]. |
| Sm3.RndIsStep | lib/alg-sm3.c:38-51 | RND overwrites only B, D, F and H. Reading its registers in the order (D, A, B, C, H, E, F, G) that the next line passes them gives the register shift of the standard: (TT1, A, B <<< 9, C, P0(TT2), E, F <<< 19, G). |
| Sm3.RoundsNext | lib/alg-sm3.c:38-57 | RND on the registers after j rounds, with round j's constant, W_j and W_j ^ W_{j+4}, gives the registers after j + 1 rounds once they are read in the next line's order. FF1/GG1 are used from round 16. |
| Sm3.WindowAt | lib/alg-sm3.c:135 | Round j finds W_j in slot j mod 16 of W00..W15 and W_{j+4} in slot (j + 4) mod 16. |
| Sm3.WindowKeeps | lib/alg-sm3.c:135-250 | Slots other than that of W_j keep schedule words j+1 .. j+15. |
| Sm3.WindowNext | lib/alg-sm3.c:136-238 | The EXPAND after round j < 52 puts W_{j+16} into the slot of W_j. After round 51 no word is produced, so only W[0..67] exist. |
| Sm3.WindowFirst | lib/alg-sm3.c:118-133 | W00..W15 loaded from the decoded block are schedule words 0..15. |
| Sm3.Round | lib/alg-sm3.c:135-136 | One unrolled line: RND for round j with the registers in that line's order, then EXPAND for j < 52. The registers move from the values after j rounds to those after j + 1 rounds, and the window advances. |
| Sm3.FourRounds | lib/alg-sm3.c:135-142 | Four consecutive lines, one turn of the argument order, take the registers from round j to round j + 4 in their own roles. |
| Sm3.RunRounds | lib/alg-sm3.c:135-250 | The 64 lines with their EXPANDs compute the registers after the 64 rounds of the standard over the schedule of the block. |
| Sm3.XorState | lib/alg-sm3.c:252-259 | Each state word is XORed with its register. |
| Sm3.CompressWords | lib/alg-sm3.c:109-259 | Loading A..H from state, the 64 rounds, and the XOR back leave state = V XOR the 64-round registers. |
| Sm3.CompressBlock | lib/alg-sm3.c:109-259 | The same, for the block whose decoded words are m, is CF(V, block). |
| Sm3.Transform | lib/alg-sm3.c:97-260 | sm3_transform leaves state = CF(old state, block). The scratch W holds the decoded block in W[0..16) and is unchanged past it. |
| Sm3Spec.CompressDef | lib/alg-sm3.c:97-260 | CF(V, B) is V XOR the registers after 64 rounds from V over the schedule of B. |
| Sm3Spec.ChainSnoc | lib/alg-sm3.c:319-324 | Absorbing one more whole block compresses it into the chaining value. |
| Sm3Spec.ChainLast | lib/alg-sm3.c:319-324 | The chaining value of a message of whole blocks is its last block compressed into the chaining value of the blocks before it. |
| Sm3Spec.ChainStep | lib/alg-sm3.c:320-323 | The same for the block at a block-aligned offset of a longer message. |
| Sm3Spec.ChainAppend | lib/alg-sm3.c:289-329 | A message of whole blocks may be absorbed in any two block-aligned parts with the same result. |
| Sm3Spec.ZeroBytes | lib/alg-sm3.c:361-375 | The number of zero bytes after 0x80 is below 64 and brings the padded length to a multiple of 64 with 8 bytes to spare. |
| Sm3Spec.ZeroBytesFewest | lib/alg-sm3.c:361-375 | No smaller number of zero bytes does that. |
| Sm3Spec.Padding | lib/alg-sm3.c:353-382 | The padding of n bytes is 9 + ZeroBytes(n) bytes long, and n plus that is a multiple of 64. |
| Sm3Spec.PaddingShape | lib/alg-sm3.c:344-378 | The padding is 0x80, then zero bytes, then the 64-bit big-endian bit count: 9 to 72 bytes in all. |
| Sm3Spec.Pad | lib/alg-sm3.c:353-382 | The padded message starts with the message, is at least 9 bytes longer and is a whole number of blocks. |
| Sm3Spec.PaddingShort | lib/alg-sm3.c:362-366 | With fewer than 56 bytes in the last block, the padding is 0x80 and 55 - r zeros before the count. |
| Sm3Spec.PaddingLong | lib/alg-sm3.c:367-375 | With 56 or more, the zeros fill the block and the first 56 bytes of the next. |
| Sm3Spec.PadOneBlock | lib/alg-sm3.c:362-366 | With fewer than 56 bytes buffered, Pad(m) is the whole blocks of m followed by exactly one block: tail, 0x80, zeros and the count. |
| Sm3Spec.PadTwoBlocks | lib/alg-sm3.c:367-375 | With 56 or more, Pad(m) is the whole blocks of m followed by exactly two blocks: tail, 0x80 and zeros, then 56 zeros and the count. |
| Sm3Spec.PadLastBlock | lib/alg-sm3.c:362-381 | The last 64 bytes of Pad(m) are the 56-byte head sm3_pad leaves in the buffer (tail, 0x80 and zeros, or 56 zeros when the count spills over) followed by the big-endian bit count. |
| Sm3Spec.PadChainOne | lib/alg-sm3.c:362-381 | In the first case padding adds exactly one compression to the chaining value. |
| Sm3Spec.PadChainTwo | lib/alg-sm3.c:367-381 | In the second case it adds exactly two. |
| Sm3Spec.Hash | lib/alg-sm3.h:44-49 | The digest is 32 bytes. |
| Sm3Spec.HashDef | lib/alg-sm3.c:388-398 | The digest is the big-endian encoding of the chaining value of the padded message. |
| Sm3Spec.Bits | lib/alg-sm3.h:28 | The bit count fits the 64-bit counter. |
| Sm3Spec.Blocks | lib/alg-sm3.c:319-324 | The whole blocks of m are a block-aligned prefix of m that leaves fewer than 64 bytes. |
| Sm3Spec.Tail | lib/alg-sm3.c:327-328 | The tail is the |m| mod 64 bytes after the whole blocks, and m is its blocks followed by its tail. |
| Sm3Spec.SplitAt | lib/alg-sm3.c:319-328 | Splitting m at a block boundary with fewer than 64 bytes after it gives its whole blocks and its tail. |
| Sm3Spec.BitsAdd | lib/alg-sm3.c:303-304 | count += len << 3, both sides modulo 2^64, gives the bit count of the longer input. |
| Sm3Context.Buffered | lib/alg-sm3.c:300-301 | (count >> 3) & 0x3f is below 64. |
| Sm3Context.BufferedCount | lib/alg-sm3.c:300-301 | Even after the bit counter wraps at 2^64, (count >> 3) & 0x3f is the number of input bytes modulo 64. |
| Sm3Context.BufferedOf | lib/alg-sm3.c:300-301 | Returns the number of input bytes modulo 64 from the counter. |
| Sm3Context.AddBits | lib/alg-sm3.c:303-304 | Returns the bit count of the extended input, modulo 2^64. |
| Sm3Context.PadPrefix | lib/alg-sm3.c:344-350 | The first n bytes of PAD are 0x80 followed by n - 1 zeros. |
| Sm3Context.Memcpy | lib/alg-sm3.c:309 | The bytes at `at` are replaced by src and the others are unchanged. |
| Sm3Context.HoldsUnique | lib/alg-sm3.h:38-49 | Two contexts that hold the same input agree on state, count and buffered bytes, however that input was split across sm3_update calls. |
| Sm3Context.HoldsSplit | lib/alg-sm3.c:306-328 | A state chained over a block-aligned prefix, the count of the whole input, and a buffer starting with the rest make a context holding the input. |
| Sm3Context.TransformBlocks | lib/alg-sm3.c:319-324 | The loop compresses every whole block of src in order and stops with fewer than 64 bytes left. |
| Sm3Context.FinishBlock | lib/alg-sm3.c:313-316 | The buffer is filled up with the first bytes of the input and compressed into the chaining value. |
| Sm3Context.FinalBlock | lib/alg-sm3.c:377-381 | be64enc puts the count in big-endian at byte 56: the buffer becomes its first 56 bytes followed by the 8 count bytes. That whole block is then compressed into the state. |
| Sm3Context.PadInBlock | lib/alg-sm3.c:362-366 | With r < 56 buffered bytes, the first 56 bytes of the buffer become the tail of the input, 0x80 and 55 - r zeros. The block then completed by the count is the last block of Pad(input). |
| Sm3Context.PadSpill | lib/alg-sm3.c:367-375 | With r >= 56, the block of the tail, 0x80 and 63 - r zeros is compressed into the state. The first 56 bytes of the buffer are then zero, and the block completed by the count is the last block of Pad(input). |
| Sm3Context.Ctx.constructor | lib/alg-sm3.h:25-30 | A context is eight state words, a counter and a 64-byte buffer. |
| Sm3Context.Ctx.Init | lib/alg-sm3.c:262-282 | sm3_init sets count to 0 and state to the IV; the context then holds the empty input. |
| Sm3Context.Ctx.UpdateUsing | lib/alg-sm3.c:289-329 | _sm3_update keeps the invariant and appends data to the input. With len == 0 it changes nothing. |
| Sm3Context.Ctx.Update | lib/alg-sm3.c:332-342 | sm3_update has the same contract, with a scratch area of its own. The body erases that scratch area with explicit_bzero. It is a local no caller can observe, so no contract clause states the erasure. |
| Sm3Context.Ctx.PadUsing | lib/alg-sm3.c:353-382 | sm3_pad leaves state = the chaining value of the padded input, and the buffer holding the last 64 bytes of the padded input (its last block, bit count included). |
| Sm3Context.Ctx.FinalUsing | lib/alg-sm3.c:388-398 | _sm3_final writes Hash(input) into digest and leaves state = the chaining value of the padded input and the buffer = the last block of the padded input. |
| Sm3Context.Ctx.Final | lib/alg-sm3.c:401-414 | sm3_final writes Hash(input) into digest, then zeroes state, count and buf. |
| Sm3Context.Sm3Hash | lib/alg-sm3.c:421-432 | sm3_hash writes Hash(data) and leaves the caller's context holding the final chaining value, the bit count of data and the last block of Pad(data), not erased. |
| Sm3Context.Sm3Buf | lib/alg-sm3.c:438-447 | sm3_buf writes Hash(data), the same digest as sm3_hash, on a context of its own. |
| Xbzero.Zeroed | lib/util-xbzero.c:37-42 | The first len elements become zero and the rest are unchanged. |
| Xbzero.ExplicitBzero | lib/util-xbzero.c:37-42 | explicit_bzero leaves the buffer as Zeroed of its old contents. |
| Xbzero.ZeroedIdempotent | lib/util-xbzero.c:37-42 | Zeroing twice is zeroing once. |
| Xbzero.ZeroedNone | lib/util-xbzero.c:37-42 | A length of 0 changes nothing. |
| Xbzero.ZeroedAll | lib/util-xbzero.c:37-42 | Zeroing a whole buffer leaves the same contents whatever it held. |
| Sm3Hmac.KeyBlock | lib/alg-sm3-hmac.h:24-28 | The key block K is 64 bytes, one SM3 block. |
| Sm3Hmac.KeyBlockShort | lib/alg-sm3-hmac.h:30-31 | A key of at most 64 bytes is kept and padded with zeros. |
| Sm3Hmac.KeyBlockLong | lib/alg-sm3-hmac.h:30-31 | A longer key is replaced by its 32-byte hash, padded with zeros. |
| Sm3Hmac.HmacZeroExtendedKey | lib/alg-sm3-hmac.h:30-31 | A short key and the same key with a zero byte appended give the same MAC. |
| Sm3Hmac.HmacLongKey | lib/alg-sm3-hmac.h:30-31 | A key longer than a block and its hash give the same MAC. |
| Sm3Hmac.XorPadInvolutive | lib/alg-sm3-hmac.h:24-28 | XORing the key block with the same pad twice gives the key block back. |
| Sm3Hmac.Hmac | lib/alg-sm3-hmac.h:34-40 | The MAC H((K ^ opad) \|\| H((K ^ ipad) \|\| data)) is 32 bytes. |
| Sm3Hmac.InnerKeyBlock | lib/alg-sm3-hmac.h:30-34 | K ^ ipad is exactly the first block of the padded inner message. The inner hash therefore continues from CF(IV, K ^ ipad) whatever the data. |
| Sm3Hmac.LoadKey | lib/alg-sm3-hmac.h:27-31 | The first step of init: the 64-byte key field ends up holding the key block K. |
| Sm3Hmac.XorKey | lib/alg-sm3-hmac.h:27-31 | The key field is XORed in place with the pad byte: K becomes K ^ opad. |
| Sm3Hmac.Restart | lib/alg-sm3-hmac.h:30-34 | sm3_init followed by sm3_update with one pad block leaves the SM3 context valid and holding exactly that block. |
| Sm3Hmac.KeyedUpdate | lib/alg-sm3-hmac.h:32-33 | Absorbing more data keeps K ^ opad in the key field and appends the data to the message behind K ^ ipad. |
| Sm3Hmac.HmacCtx.constructor | lib/alg-sm3-hmac.h:24-28 | An HMAC context is an SM3 context and a separate 64-byte key field. |
| Sm3Hmac.HmacCtx.Init | lib/alg-sm3-hmac.h:30-31 | sm3_hmac_init leaves the SM3 context holding K ^ ipad and the key field holding K ^ opad. |
| Sm3Hmac.HmacCtx.Update | lib/alg-sm3-hmac.h:32-33 | sm3_hmac_update appends data to the message. |
| Sm3Hmac.HmacCtx.Final | lib/alg-sm3-hmac.h:34 | sm3_hmac_final writes Hmac(key, message) into mac, hashing the K ^ opad of the key field ahead of the inner digest. It then leaves the SM3 context and the key field all zero. |
| Sm3Hmac.HmacHash | lib/alg-sm3-hmac.h:35-37 | sm3_hmac, which takes the data before the key, writes Hmac(key, data) and leaves the caller's HMAC context erased: SM3 state, count, buffer and key field all zero. |
| Sm3Hmac.HmacBuf | lib/alg-sm3-hmac.h:38-40 | sm3_hmac_buf writes the same MAC on a context of its own. |

## Left out

- `byteorder.h` is not part of this model. `be32enc`, `be32dec` and `be64enc` are specified directly as big-endian encoding (module `ByteOrder`).
- The implementation file of HMAC-SM3 is not part of this model. `Sm3Hmac` follows section 2 of RFC 2104 and the context layout and calls declared in `lib/alg-sm3-hmac.h`. Its methods are specified against that construction, not against implementation lines.
- Sm3Hmac.HmacCtx.Init: the header fixes only the 64-byte key field. This model keeps K ^ opad there after init, and has `Sm3Hmac.HmacCtx.Final` erase the key field and the SM3 context. Both are choices of this model. The HMAC implementation file is not modelled.
- The four known-answer tests of GM/T 0042-2015 Appendix D.3 in `test/alg-sm3-hmac.c` are not stated. Proving them would mean evaluating several full SM3 compressions symbolically inside the verifier, which is beyond what it can do in reasonable time.
- The compiler barrier (`asm volatile`) and `NO_INLINE` of `explicit_bzero` only keep the compiler from eliding the stores. In this model every store is observable anyway.
- Xbzero.ExplicitBzero: the length counts elements of the array rather than bytes. `sm3_update` and `sm3_final` erase the 72-word scratch area with `explicit_bzero(tmp32, 288)`, which the model writes as 72 words.
- Sm3Context.Ctx.Final: `explicit_bzero(ctx, sizeof(sm3_ctx))` erases the record as one byte range, struct padding included. The model zeroes the three fields one by one.
- Sm3Primitives.RotateInverse: stated only for the rotation amounts the macros apply to data words (7, 9, 12, 15, 17, 19, 23). `ROTATE(a, 0)` would shift by 32 in C, which is undefined, and lib/alg-sm3.c never passes 0. `Rotate` leaves the word unchanged for any amount outside 1..31; only the round constants use amount 0 (round 0 and round 32).
- Sm3.Be32DecVect: requires the byte input to hold exactly 8·len bytes, and sm3_transform passes a whole 64-byte block. Both vector codecs require len >= 1, because the C do-while loop runs once before testing len.
- Sm3.Transform: the scratch area W must not be the state array, matching the `restrict` qualifiers of lib/alg-sm3.c.
- Sm3Context.Ctx.Final: the digest passed to sm3_final must not be the context's buffer.
- ByteOrder.Be64Enc: the contract states only that the encoding is 8 bytes. Its byte order, the high 32-bit half first with each half big-endian, is given by its definition and by Be32Enc.
- The bit counter is modelled as an integer kept modulo 2^64, as the `uint64_t` field wraps. Every other 32-bit sum is a `bv32` addition, which wraps the same way.
- `Compress` and `Hash` are defined through a depth counter (`CompressAt`, `HashAt`) whose value does not change the result (`CompressAtAnyDepth`, `HashDef`). This keeps proofs about whole messages from unfolding the 64 rounds. It has no counterpart in lib/alg-sm3.c.
- Concurrency, aliasing of the input with the context, and the `restrict`, `static` and `register` qualifiers are not modelled.
