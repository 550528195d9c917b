// The imperative SM3 of lib/alg-sm3.c: the vector codecs and the compression
// function sm3_transform with its renamed registers and rolling 16-word
// message window, each proved against the pure definitions of module Sm3Spec.
// The streaming context sm3_ctx is in module Sm3Context.
module Sm3 {
  import opened ByteOrder
  import opened Sm3Primitives
  import opened Sm3Spec

  /** sm3_be32dec_vect: decode the 8 * len big-endian bytes of src into the
      first 2 * len words of dst, two words per iteration. The C
      do-while loop needs len >= 1. */
  method Be32DecVect(dst: array<Word>, src: seq<Byte>, len: nat)
    requires 1 <= len && |src| == 8 * len && 2 * len <= dst.Length
    modifies dst
    ensures dst[..2 * len] == DecodeWords(src)
    ensures dst[2 * len..] == old(dst[2 * len..])
  {
    var i := 0;
    while i < len
      invariant 0 <= i <= len
      invariant forall k :: 0 <= k < 2 * i ==> dst[k] == Be32Dec(src[4 * k .. 4 * k + 4])
      invariant forall k :: 2 * i <= k < dst.Length ==> dst[k] == old(dst[k])
    {
      dst[2 * i] := Be32Dec(src[8 * i .. 8 * i + 4]);
      dst[2 * i + 1] := Be32Dec(src[8 * i + 4 .. 8 * i + 8]);
      i := i + 1;
    }
    DecodeWordsFrom(dst[..2 * len], src);
  }

  /** be32enc(&dst[at], w). */
  method Be32EncAt(dst: array<Byte>, at: nat, w: Word)
    requires at + 4 <= dst.Length
    modifies dst
    ensures dst[..] == old(dst[..at]) + Be32Enc(w) + old(dst[at + 4..])
  {
    var e := Be32Enc(w);
    dst[at], dst[at + 1], dst[at + 2], dst[at + 3] := e[0], e[1], e[2], e[3];
  }

  /** The two be32enc calls of one iteration of sm3_be32enc_vect. */
  method Be32EncPair(dst: array<Byte>, at: nat, w0: Word, w1: Word)
    requires at + 8 <= dst.Length
    modifies dst
    ensures dst[..at + 8] == old(dst[..at]) + Be32Enc(w0) + Be32Enc(w1)
    ensures forall k :: at + 8 <= k < dst.Length ==> dst[k] == old(dst[k])
  {
    Be32EncAt(dst, at, w0);
    Be32EncAt(dst, at + 4, w1);
  }

  /** sm3_be32enc_vect: encode the first 2 * len words of src as 8 * len
      big-endian bytes at the start of dst, two words per iteration. */
  method Be32EncVect(dst: array<Byte>, src: array<Word>, len: nat)
    requires 1 <= len && 2 * len <= src.Length && 8 * len <= dst.Length
    modifies dst
    ensures dst[..8 * len] == EncodeWords(src[..2 * len])
    ensures dst[8 * len..] == old(dst[8 * len..])
  {
    var i := 0;
    while i < len
      invariant 0 <= i <= len
      invariant dst[..8 * i] == EncodeWords(src[..2 * i])
      invariant forall k :: 8 * i <= k < dst.Length ==> dst[k] == old(dst[k])
    {
      Be32EncPair(dst, 8 * i, src[2 * i], src[2 * i + 1]);
      EncodeWordsPairs(src[..], i);
      i := i + 1;
    }
  }

  /** RND(A, B, C, D, E, F, G, H, TJ, Wi, Wj, FF, GG): the register file
      after one round done in place. Only B, D, F and H are overwritten;
      `late` selects R2 (FF1, GG1) over R1 (FF0, GG0). */
  function Rnd(x: Regs, tj: Word, wi: Word, wj: Word, late: bool): (y: Regs)
    ensures y.a == x.a && y.c == x.c && y.e == x.e && y.g == x.g
    ensures y.b == Rotate(x.b, 9) && y.f == Rotate(x.f, 19)
  {
    var a12 := Rotate(x.a, 12);
    var a12sm := Add(Add(a12, x.e), tj);
    var ss1 := Rotate(a12sm, 7);
    var tt1 := Add(Add(Add(if late then FF1(x.a, x.b, x.c) else FF0(x.a, x.b, x.c), x.d), ss1 ^ a12), wj);
    var tt2 := Add(Add(Add(if late then GG1(x.e, x.f, x.g) else GG0(x.e, x.f, x.g), x.h), ss1), wi);
    x.(b := Rotate(x.b, 9), d := tt1, f := Rotate(x.f, 19), h := P0(tt2))
  }

  /** The registers read in the order (D, A, B, C, H, E, F, G). */
  function NextOrder(y: Regs): Regs
  {
    Regs(y.d, y.a, y.b, y.c, y.h, y.e, y.f, y.g)
  }

  /** Register renaming: after RND, reading the registers in the order the
      next unrolled round passes them gives the standard's shifted registers
      (section 5.3.3 of GB/T 32905-2016), although no register was copied. */
  lemma RndIsStep(x: Regs, tj: Word, wi: Word, wj: Word, late: bool)
    ensures NextOrder(Rnd(x, tj, wi, wj, late)) == Step(x, tj, wi, wj, late)
    ensures Rnd(x, tj, wi, wj, late).a == x.a && Rnd(x, tj, wi, wj, late).c == x.c
    ensures Rnd(x, tj, wi, wj, late).e == x.e && Rnd(x, tj, wi, wj, late).g == x.g
  {
  }

  /** The rolling window W00..W15 holds schedule words j .. j + 15 (those
      below 68) in slots taken modulo 16. */
  ghost predicate Window(win: seq<Word>, sched: seq<Word>, j: int)
    requires |win| == 16 && |sched| == 68
  {
    forall i :: j <= i < j + 16 && 0 <= i < 68 ==> win[i % 16] == sched[i]
  }

  /** Round j reads W_j and W_{j+4} from the window. */
  lemma WindowAt(win: seq<Word>, sched: seq<Word>, j: int)
    requires |win| == 16 && |sched| == 68 && 0 <= j < 64 && Window(win, sched, j)
    ensures win[j % 16] == sched[j] && win[(j + 4) % 16] == sched[j + 4]
  {
  }

  /** The slots other than that of W_j keep schedule words j + 1 .. j + 15. */
  lemma WindowKeeps(win: seq<Word>, win': seq<Word>, sched: seq<Word>, j: int)
    requires |win| == 16 && |win'| == 16 && |sched| == 68 && 0 <= j < 64 && Window(win, sched, j)
    requires forall k :: 0 <= k < 16 && k != j % 16 ==> win'[k] == win[k]
    ensures forall i :: j + 1 <= i < j + 16 && i < 68 ==> win'[i % 16] == sched[i]
  {
    forall i | j + 1 <= i < j + 16 && i < 68
      ensures win'[i % 16] == sched[i]
    {
      assert i % 16 != j % 16;
    }
  }

  /** EXPAND after round j < 52 replaces W_j by W_{j+16} in its slot; after
      round 51 the window only shrinks. */
  lemma WindowNext(win: seq<Word>, sched: seq<Word>, j: int)
    requires |win| == 16 && |sched| == 68 && 0 <= j < 64 && Window(win, sched, j)
    requires forall i :: 16 <= i < 68 ==> Expands(sched, i)
    ensures j < 52 ==> Window(win[j % 16 := Expand(win[j % 16], win[(j + 7) % 16], win[(j + 13) % 16],
                                                   win[(j + 3) % 16], win[(j + 10) % 16])], sched, j + 1)
    ensures j >= 52 ==> Window(win, sched, j + 1)
  {
    if j < 52 {
      var x := Expand(win[j % 16], win[(j + 7) % 16], win[(j + 13) % 16], win[(j + 3) % 16], win[(j + 10) % 16]);
      var win' := win[j % 16 := x];
      WindowKeeps(win, win', sched, j);
      assert win[j % 16] == sched[j] && win[(j + 7) % 16] == sched[j + 7];
      assert win[(j + 13) % 16] == sched[j + 13] && win[(j + 3) % 16] == sched[j + 3];
      assert win[(j + 10) % 16] == sched[j + 10];
      assert Expands(sched, j + 16);
      assert win'[(j + 16) % 16] == sched[j + 16];
    } else {
      WindowKeeps(win, win, sched, j);
    }
  }

  /** One more round on the registers x reached after j rounds, with the
      round's constant and its two message words: RND followed by reading
      the registers in the next round's order gives the registers after
      j + 1 rounds. */
  lemma RoundsNext(x: Regs, j: int, x0: Regs, sched: seq<Word>, wi: Word, wj: Word)
    requires 0 <= j < 64 && |sched| == 68
    requires x == Rounds(j, x0, sched)
    requires wi == sched[j] && wj == sched[j] ^ sched[j + 4]
    ensures NextOrder(Rnd(x, RoundConstants[j], wi, wj, j >= 16)) == Rounds(j + 1, x0, sched)
    ensures Rnd(x, RoundConstants[j], wi, wj, j >= 16).a == x.a && Rnd(x, RoundConstants[j], wi, wj, j >= 16).c == x.c
    ensures Rnd(x, RoundConstants[j], wi, wj, j >= 16).e == x.e && Rnd(x, RoundConstants[j], wi, wj, j >= 16).g == x.g
  {
    RndIsStep(x, RoundConstants[j], wi, wj, j >= 16);
  }

  /** The window starts as the sixteen message words. */
  lemma WindowFirst(m: seq<Word>)
    requires |m| == 16
    ensures Window(m, Schedule(m), 0)
  {
    var sched := Schedule(m);
    forall i | 0 <= i < 16
      ensures m[i % 16] == sched[i]
    {
      assert sched[..16][i] == sched[i];
    }
  }

  /** One line of the unrolled body of sm3_transform: RND for round j on
      the registers passed in the order that line uses, which overwrites
      its B, D, F and H, followed for j < 52 by the EXPAND that overwrites
      the window slot of W_j with W_{j+16}. */
  method Round(a: Word, b: Word, c: Word, d: Word, e: Word, f: Word, g: Word, h: Word,
               win: seq<Word>, j: int, ghost x0: Regs, ghost sched: seq<Word>)
    returns (b': Word, d': Word, f': Word, h': Word, win': seq<Word>)
    requires 0 <= j < 64 && |win| == 16 && |sched| == 68
    requires forall i :: 16 <= i < 68 ==> Expands(sched, i)
    requires Window(win, sched, j) && Regs(a, b, c, d, e, f, g, h) == Rounds(j, x0, sched)
    ensures Regs(d', a, b', c, h', e, f', g) == Rounds(j + 1, x0, sched)
    ensures |win'| == 16 && Window(win', sched, j + 1)
  {
    WindowAt(win, sched, j);
    var wi := win[j % 16];
    var wj := wi ^ win[(j + 4) % 16];
    var x := Regs(a, b, c, d, e, f, g, h);
    RoundsNext(x, j, x0, sched, wi, wj);
    var y := Rnd(x, RoundConstants[j], wi, wj, j >= 16);
    b', d', f', h' := y.b, y.d, y.f, y.h;
    WindowNext(win, sched, j);
    if j < 52 {
      win' := win[j % 16 := Expand(win[j % 16], win[(j + 7) % 16], win[(j + 13) % 16],
                                   win[(j + 3) % 16], win[(j + 10) % 16])];
    } else {
      win' := win;
    }
  }

  /** The closing lines of sm3_transform: each state word is XORed with
      its register. */
  method XorState(state: array<Word>, a: Word, b: Word, c: Word, d: Word, e: Word, f: Word, g: Word, h: Word)
    requires state.Length == 8
    modifies state
    ensures state[..] == XorRegs(old(state[..]), Regs(a, b, c, d, e, f, g, h))
  {
    var t := XorRegs(state[..], Regs(a, b, c, d, e, f, g, h));
    state[0], state[1], state[2], state[3] := t[0], t[1], t[2], t[3];
    state[4], state[5], state[6], state[7] := t[4], t[5], t[6], t[7];
  }

  /** Four consecutive lines of the unrolled body, starting at round j: one
      full turn of the order in which the lines pass A..H to RND, after
      which the registers are back in their own roles. */
  method FourRounds(a: Word, b: Word, c: Word, d: Word, e: Word, f: Word, g: Word, h: Word,
                    win: seq<Word>, j: int, ghost x0: Regs, ghost sched: seq<Word>)
    returns (a': Word, b': Word, c': Word, d': Word, e': Word, f': Word, g': Word, h': Word, win': seq<Word>)
    requires 0 <= j <= 60 && |win| == 16 && |sched| == 68
    requires forall i :: 16 <= i < 68 ==> Expands(sched, i)
    requires Window(win, sched, j) && Regs(a, b, c, d, e, f, g, h) == Rounds(j, x0, sched)
    ensures Regs(a', b', c', d', e', f', g', h') == Rounds(j + 4, x0, sched)
    ensures |win'| == 16 && Window(win', sched, j + 4)
  {
    a', b', c', d', e', f', g', h', win' := a, b, c, d, e, f, g, h, win;
    b', d', f', h', win' := Round(a', b', c', d', e', f', g', h', win', j, x0, sched);
    a', c', e', g', win' := Round(d', a', b', c', h', e', f', g', win', j + 1, x0, sched);
    d', b', h', f', win' := Round(c', d', a', b', g', h', e', f', win', j + 2, x0, sched);
    c', a', g', e', win' := Round(b', c', d', a', f', g', h', e', win', j + 3, x0, sched);
  }

  /** The 64 unrolled R1/R2 lines of sm3_transform with their EXPANDs, from
      the registers A..H and the message words W00..W15 of one block. */
  method RunRounds(a: Word, b: Word, c: Word, d: Word, e: Word, f: Word, g: Word, h: Word, m: seq<Word>)
    returns (a': Word, b': Word, c': Word, d': Word, e': Word, f': Word, g': Word, h': Word)
    requires |m| == 16
    ensures Regs(a', b', c', d', e', f', g', h') == Rounds(NumRounds, Regs(a, b, c, d, e, f, g, h), Schedule(m))
  {
    ghost var x0 := Regs(a, b, c, d, e, f, g, h);
    ghost var sched := Schedule(m);
    a', b', c', d', e', f', g', h' := a, b, c, d, e, f, g, h;
    var win := m;
    WindowFirst(win);
    var q := 0;
    while q < 16
      invariant 0 <= q <= 16 && |win| == 16
      invariant Window(win, sched, 4 * q)
      invariant Regs(a', b', c', d', e', f', g', h') == Rounds(4 * q, x0, sched)
    {
      a', b', c', d', e', f', g', h', win := FourRounds(a', b', c', d', e', f', g', h', win, 4 * q, x0, sched);
      q := q + 1;
    }
  }

  /** The body of sm3_transform after the block is decoded into the
      message words m: load A..H from state, run the 64 rounds, and XOR the
      registers back into state. */
  method CompressWords(state: array<Word>, m: seq<Word>)
    requires state.Length == 8 && |m| == 16
    modifies state
    ensures state[..] == XorRegs(old(state[..]), Rounds(NumRounds, ToRegs(old(state[..])), Schedule(m)))
  {
    var a, b, c, d, e, f, g, h := state[0], state[1], state[2], state[3], state[4], state[5], state[6], state[7];
    assert Regs(a, b, c, d, e, f, g, h) == ToRegs(state[..]);
    a, b, c, d, e, f, g, h := RunRounds(a, b, c, d, e, f, g, h, m);
    XorState(state, a, b, c, d, e, f, g, h);
  }

  /** CF(V, B) on state, for the block B whose message words are m. */
  method CompressBlock(state: array<Word>, m: seq<Word>, ghost block: seq<Byte>)
    requires state.Length == 8 && |block| == 64 && m == DecodeWords(block)
    modifies state
    ensures state[..] == Compress(old(state[..]), block)
  {
    CompressWords(state, m);
    CompressDef(old(state[..]), block);
  }

  /** sm3_transform: compress one 64-byte block into state, using w (the
      caller's scratch area, at least 16 words) for the decoded block. */
  method Transform(state: array<Word>, block: seq<Byte>, w: array<Word>)
    requires state.Length == 8 && |block| == 64 && w.Length >= 16 && state != w
    modifies state, w
    ensures w[..16] == DecodeWords(block) && w[16..] == old(w[16..])
    ensures state[..] == Compress(old(state[..]), block)
  {
    Be32DecVect(w, block, 8);
    CompressBlock(state, w[..16], block);
  }
}
