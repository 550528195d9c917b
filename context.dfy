// The streaming interface of lib/alg-sm3.c over the context sm3_ctx of
// lib/alg-sm3.h: sm3_init, sm3_update, sm3_pad, sm3_final and the one-shot
// sm3_hash and sm3_buf. The context is a class whose fields the methods
// update in place; the ghost field `absorbed` records the bytes input since
// sm3_init, and Valid() ties the concrete fields to it.
module Sm3Context {
  import opened ByteOrder
  import opened Sm3Spec
  import opened Xbzero
  import opened Sm3

  /** PAD: the byte 0x80 followed by 63 zero bytes. */
  const PAD: seq<Byte> := [0x80] + Zeros(63)

  /** memcpy(&dst[at], src, |src|). */
  method Memcpy(dst: array<Byte>, at: nat, src: seq<Byte>)
    requires at + |src| <= dst.Length
    modifies dst
    ensures dst[..] == old(dst[..at]) + src + old(dst[at + |src|..])
    ensures dst[..at + |src|] == old(dst[..at]) + src
    ensures at == 0 ==> dst[..|src|] == src
  {
    forall i | 0 <= i < |src| {
      dst[at + i] := src[i];
    }
  }

  /** The number of bytes an sm3_ctx buffers, as sm3_update and sm3_pad
      compute it from the bit counter: (count >> 3) & 0x3f. */
  function Buffered(count: int): (r: int)
    requires 0 <= count
    ensures 0 <= r < 64
  {
    (count / 8) % 64
  }

  /** The first n bytes of PAD. */
  lemma PadPrefix(n: nat)
    requires 1 <= n <= 64
    ensures PAD[..n] == [0x80] + Zeros(n - 1)
  {
    assert PAD[..n] == [0x80] + Zeros(63)[..n - 1];
  }

  /** The number of buffered bytes, from the count of n bytes. */
  method BufferedOf(count: int, ghost n: nat) returns (r: int)
    requires count == Bits(n)
    ensures r == n % 64
  {
    r := Buffered(count);
    BufferedCount(n);
  }

  /** count += len << 3 on the 64-bit counter of the bytes a, which m
      extends by len more. */
  method AddBits(count: int, len: nat, ghost a: seq<Byte>, ghost m: seq<Byte>) returns (c: int)
    requires count == Bits(|a|) && |m| == |a| + len
    ensures c == Bits(|m|)
  {
    c := (count + (8 * len) % TWO_64) % TWO_64;
    BitsAdd(|a|, len);
  }

  /** The bit counter, even after it wraps around at 2^64, still gives the
      number of buffered bytes. */
  lemma BufferedCount(n: nat)
    ensures Buffered(Bits(n)) == n % 64
  {
    var k := (8 * n) / TWO_64;
    var q := n / 64;
    assert 8 * n == TWO_64 * k + Bits(n);
    assert Bits(n) == 8 * (n - 0x2000_0000_0000_0000 * k);
    assert Bits(n) / 8 == n - 0x2000_0000_0000_0000 * k;
    assert n - 0x2000_0000_0000_0000 * k == 64 * (q - 0x80_0000_0000_0000 * k) + n % 64;
  }

  /** What an sm3_ctx holds after input a: the chaining value of the whole
      blocks of a, the number of bits of a modulo 2^64, and a buffer that
      starts with the bytes of a after its whole blocks. */
  ghost predicate Holds(state: seq<Word>, count: int, buf: seq<Byte>, a: seq<Byte>)
  {
    |state| == 8 && |buf| == 64 && 0 <= count < TWO_64 && count == Bits(|a|) &&
    state == Chain(IV, Blocks(a)) && buf[..|a| % 64] == Tail(a)
  }

  /** What a context holds is determined by its input alone: two contexts
      holding the same bytes agree on the state, the count and the buffered
      bytes, however the input was split across sm3_update calls. */
  lemma HoldsUnique(state1: seq<Word>, count1: int, buf1: seq<Byte>,
                    state2: seq<Word>, count2: int, buf2: seq<Byte>, a: seq<Byte>)
    requires Holds(state1, count1, buf1, a) && Holds(state2, count2, buf2, a)
    ensures state1 == state2 && count1 == count2 && buf1[..|a| % 64] == buf2[..|a| % 64]
  {
  }

  /** The context holds a = prefix + rest once the state is the chaining
      value of prefix, a whole number of blocks, and the buffer starts with
      rest, which is shorter than a block. */
  lemma HoldsSplit(state: seq<Word>, count: int, buf: seq<Byte>, a: seq<Byte>, prefix: seq<Byte>, rest: seq<Byte>)
    requires a == prefix + rest && |prefix| % 64 == 0 && |rest| < 64
    requires |state| == 8 && state == Chain(IV, prefix) && count == Bits(|a|)
    requires |buf| == 64 && buf[..|rest|] == rest
    ensures Holds(state, count, buf, a)
  {
    SplitAt(a, |prefix|);
    assert a[..|prefix|] == prefix && a[|prefix|..] == rest;
  }

  /** The message after an input that completes the buffered block:
      that block, then the whole blocks of the input, then its leftover. */
  lemma Regroup(blocks: seq<Byte>, tail: seq<Byte>, data: seq<Byte>, s: nat, p: nat)
    requires s <= |data| && p <= |data| - s
    ensures blocks + tail + data == (blocks + (tail + data[..s]) + data[s..][..p]) + data[s..][p..]
  {
    assert data == data[..s] + data[s..][..p] + data[s..][p..];
  }

  /** The next block of src extends the part of the message compressed. */
  lemma Extend(prefix: seq<Byte>, src: seq<Byte>, p: nat)
    requires p + 64 <= |src|
    ensures prefix + src[..p] + src[p..p + 64] == prefix + src[..p + 64]
  {
    assert src[..p + 64] == src[..p] + src[p..p + 64];
  }

  /** sm3_transform on each whole block of src in turn, as the loop of
      _sm3_update does: returns the number of bytes it compressed. */
  method TransformBlocks(state: array<Word>, src: seq<Byte>, tmp32: array<Word>, ghost prefix: seq<Byte>)
    returns (p: nat)
    requires state.Length == 8 && tmp32.Length == 72 && state != tmp32
    requires |prefix| % 64 == 0 && state[..] == Chain(IV, prefix)
    modifies state, tmp32
    ensures p <= |src| < p + 64
    ensures |prefix + src[..p]| % 64 == 0 && state[..] == Chain(IV, prefix + src[..p])
  {
    p := 0;
    assert prefix + src[..0] == prefix;
    while |src| - p >= 64
      invariant p <= |src|
      invariant |prefix + src[..p]| % 64 == 0 && state[..] == Chain(IV, prefix + src[..p])
      modifies state, tmp32
    {
      ghost var done := prefix + src[..p];
      ChainSnoc(IV, done, src[p..p + 64]);
      Extend(prefix, src, p);
      BlockAligned(|done|);
      Transform(state, src[p..p + 64], tmp32);
      p := p + 64;
    }
  }

  /** The step at lib/alg-sm3.c:313-316: top up the buffer, which already
      holds r bytes, with chunk, then compress the full block into the
      chaining value of prefix. */
  method FinishBlock(state: array<Word>, buf: array<Byte>, r: nat, chunk: seq<Byte>, tmp32: array<Word>,
                     ghost prefix: seq<Byte>)
    requires state.Length == 8 && buf.Length == 64 && tmp32.Length == 72 && state != tmp32
    requires r + |chunk| == 64 && |prefix| % 64 == 0 && state[..] == Chain(IV, prefix)
    modifies state, buf, tmp32
    ensures buf[..] == old(buf[..r]) + chunk
    ensures state[..] == Compress(old(state[..]), buf[..])
    ensures |prefix + buf[..]| % 64 == 0 && state[..] == Chain(IV, prefix + buf[..])
  {
    Memcpy(buf, r, chunk);
    assert buf[..] == buf[..r + |chunk|];
    ChainSnoc(IV, prefix, buf[..]);
    Transform(state, buf[..], tmp32);
    BlockAligned(|prefix|);
  }

  /** The last step of the padding (lib/alg-sm3.c:377-381): store the bit
      counter big-endian in bytes 56..64 of the buffer and compress that
      block. */
  method FinalBlock(state: array<Word>, buf: array<Byte>, count: int, tmp32: array<Word>)
    requires state.Length == 8 && buf.Length == 64 && tmp32.Length == 72 && state != tmp32
    requires 0 <= count < TWO_64
    modifies state, buf, tmp32
    ensures buf[..] == old(buf[..56]) + Be64Enc(count)
    ensures state[..] == Compress(old(state[..]), old(buf[..56]) + Be64Enc(count))
  {
    ghost var head := buf[..56];
    Memcpy(buf, 56, Be64Enc(count));
    assert buf[..] == head + Be64Enc(count);
    Transform(state, buf[..], tmp32);
  }

  /** sm3_pad with r < 56 bytes buffered: PAD fills the buffer up to byte
      56, and the block that the bit count completes is the last of Pad(a). */
  method PadInBlock(state: array<Word>, buf: array<Byte>, r: nat, ghost a: seq<Byte>)
    requires state.Length == 8 && buf.Length == 64 && r == |a| % 64 < 56
    requires state[..] == Chain(IV, Blocks(a)) && buf[..r] == Tail(a)
    modifies buf
    ensures buf[..56] == Tail(a) + ([0x80] + Zeros(55 - r))
    ensures |buf[..56] + Be64Enc(Bits(|a|))| == 64
    ensures Chain(IV, Pad(a)) == Compress(state[..], buf[..56] + Be64Enc(Bits(|a|)))
  {
    Memcpy(buf, r, PAD[..56 - r]);
    PadPrefix(56 - r);
    assert buf[..56] == Tail(a) + ([0x80] + Zeros(55 - r));
    PadChainOne(IV, a);
  }

  /** sm3_pad with r >= 56 bytes buffered: PAD fills and completes the
      current block, which is compressed, and the next block starts with 56
      zero bytes. */
  method PadSpill(state: array<Word>, buf: array<Byte>, r: nat, tmp32: array<Word>, ghost a: seq<Byte>)
    requires state.Length == 8 && buf.Length == 64 && tmp32.Length == 72 && state != tmp32
    requires r == |a| % 64 >= 56 && state[..] == Chain(IV, Blocks(a)) && buf[..r] == Tail(a)
    modifies state, buf, tmp32
    ensures state[..] == Compress(old(state[..]), Tail(a) + ([0x80] + Zeros(63 - r)))
    ensures buf[..56] == Zeros(56)
    ensures |buf[..56] + Be64Enc(Bits(|a|))| == 64
    ensures Chain(IV, Pad(a)) == Compress(state[..], buf[..56] + Be64Enc(Bits(|a|)))
  {
    PadPrefix(64 - r);
    FinishBlock(state, buf, r, PAD[..64 - r], tmp32, Blocks(a));
    PadChainTwo(IV, a);
    Memcpy(buf, 0, Zeros(56));
  }

  /** sm3_ctx. */
  class Ctx {
    const state: array<Word>
    var count: int
    const buf: array<Byte>
    /** The bytes input since sm3_init. */
    ghost var absorbed: seq<Byte>

    /** The state holds the chaining value of the whole blocks input so far,
        buf starts with the bytes after them, and count is the number of
        bits input, modulo 2^64. */
    ghost predicate Valid()
      reads this, state, buf
    {
      state.Length == 8 && buf.Length == 64 && Holds(state[..], count, buf[..], absorbed)
    }

    /** A context in storage that sm3_init has not yet touched. */
    constructor()
      ensures state.Length == 8 && buf.Length == 64 && fresh(state) && fresh(buf)
    {
      state := new Word[8](_ => 0);
      buf := new Byte[64](_ => 0);
      count := 0;
      absorbed := [];
    }

    /** sm3_init: zero the bit count and copy initial_state into state. */
    method Init()
      requires state.Length == 8 && buf.Length == 64
      modifies this, state
      ensures Valid() && absorbed == [] && count == 0 && state[..] == IV
    {
      count := 0;
      state[0], state[1], state[2], state[3] := IV[0], IV[1], IV[2], IV[3];
      state[4], state[5], state[6], state[7] := IV[4], IV[5], IV[6], IV[7];
      absorbed := [];
    }

    /** _sm3_update: input data, compressing every block completed, with
        tmp32 as the scratch area of sm3_transform. */
    method UpdateUsing(data: seq<Byte>, tmp32: array<Word>)
      requires Valid() && tmp32.Length == 72 && tmp32 != state
      modifies this, state, buf, tmp32
      ensures Valid() && absorbed == old(absorbed) + data
      ensures |data| == 0 ==> count == old(count) && state[..] == old(state[..]) && buf[..] == old(buf[..])
    {
      if |data| == 0 {
        assert absorbed + data == absorbed;
        return;
      }
      ghost var a := absorbed;
      ghost var blocks, tail := Blocks(a), Tail(a);
      var r := BufferedOf(count, |a|);
      count := AddBits(count, |data|, a, a + data);
      if |data| < 64 - r {
        Memcpy(buf, r, data);
        absorbed := a + data;
        assert absorbed == blocks + (tail + data);
        HoldsSplit(state[..], count, buf[..], absorbed, blocks, tail + data);
        return;
      }
      var s := 64 - r;
      FinishBlock(state, buf, r, data[..s], tmp32, blocks);
      ghost var first := blocks + buf[..];
      var p := TransformBlocks(state, data[s..], tmp32, first);
      ghost var prefix := first + data[s..][..p];
      var rest := data[s..][p..];
      Memcpy(buf, 0, rest);
      absorbed := a + data;
      Regroup(blocks, tail, data, s, p);
      HoldsSplit(state[..], count, buf[..], absorbed, prefix, rest);
    }

    /** sm3_update: _sm3_update with a scratch area of its own, which it
        clears afterwards. */
    method Update(data: seq<Byte>)
      requires Valid()
      modifies this, state, buf
      ensures Valid() && absorbed == old(absorbed) + data
      ensures |data| == 0 ==> count == old(count) && state[..] == old(state[..]) && buf[..] == old(buf[..])
    {
      var tmp32 := new Word[72](_ => 0);
      UpdateUsing(data, tmp32);
      ExplicitBzero(tmp32, 72, 0);
    }

    /** sm3_pad: append the padding of section 5.2 of GB/T 32905-2016
        through the buffer and compress the one or two blocks it completes.
        The count is left as it was. */
    method PadUsing(tmp32: array<Word>)
      requires Valid() && tmp32.Length == 72 && tmp32 != state
      modifies state, buf, tmp32
      ensures state[..] == Chain(IV, Pad(absorbed))
      ensures buf[..] == Pad(absorbed)[|Pad(absorbed)| - 64..]
    {
      var r := BufferedOf(count, |absorbed|);
      if r < 56 {
        PadInBlock(state, buf, r, absorbed);
      } else {
        PadSpill(state, buf, r, tmp32, absorbed);
      }
      assert buf[..56] == LastHead(absorbed);
      FinalBlock(state, buf, count, tmp32);
      PadLastBlock(absorbed);
    }

    /** _sm3_final: pad, then write the state as 32 big-endian bytes. */
    method FinalUsing(digest: array<Byte>, tmp32: array<Word>)
      requires Valid() && digest.Length == 32 && tmp32.Length == 72 && tmp32 != state
      modifies state, buf, tmp32, digest
      ensures digest[..] == Hash(absorbed) && state[..] == Chain(IV, Pad(absorbed))
      ensures buf[..] == Pad(absorbed)[|Pad(absorbed)| - 64..]
    {
      PadUsing(tmp32);
      Be32EncVect(digest, state, 4);
      assert state[..8] == state[..];
      assert digest[..32] == digest[..];
      HashDef(absorbed);
    }

    /** sm3_final: _sm3_final with a scratch area of its own, then erase the
        whole context and the scratch area. */
    method Final(digest: array<Byte>)
      requires Valid() && digest.Length == 32 && digest != buf
      modifies this, state, buf, digest
      ensures digest[..] == Hash(old(absorbed))
      ensures state[..] == seq(8, _ => 0) && count == 0 && buf[..] == seq(64, _ => 0)
    {
      var tmp32 := new Word[72](_ => 0);
      FinalUsing(digest, tmp32);
      ExplicitBzero(state, 8, 0);
      count := 0;
      ExplicitBzero(buf, 64, 0);
      ExplicitBzero(tmp32, 72, 0);
      assert state[..] == seq(8, _ => 0);
      assert buf[..] == seq(64, _ => 0);
    }
  }

  /** sm3_hash: init, update with data and final on the caller's ctx, which
      is left holding the final chaining value, not erased. */
  method Sm3Hash(data: seq<Byte>, digest: array<Byte>, ctx: Ctx)
    requires ctx.state.Length == 8 && ctx.buf.Length == 64 && digest.Length == 32
    modifies ctx, ctx.state, ctx.buf, digest
    ensures digest[..] == Hash(data)
    ensures ctx.state[..] == Chain(IV, Pad(data)) && ctx.count == Bits(|data|)
    ensures ctx.buf[..] == Pad(data)[|Pad(data)| - 64..]
  {
    var tmp32 := new Word[72](_ => 0);
    ctx.Init();
    ctx.UpdateUsing(data, tmp32);
    assert ctx.absorbed == data;
    ctx.FinalUsing(digest, tmp32);
    ExplicitBzero(tmp32, 72, 0);
  }

  /** sm3_buf: sm3_hash on a context of its own, erased afterwards. */
  method Sm3Buf(data: seq<Byte>, digest: array<Byte>)
    requires digest.Length == 32
    modifies digest
    ensures digest[..] == Hash(data)
  {
    var ctx := new Ctx();
    Sm3Hash(data, digest, ctx);
    ExplicitBzero(ctx.state, 8, 0);
    ctx.count := 0;
    ExplicitBzero(ctx.buf, 64, 0);
  }
}
