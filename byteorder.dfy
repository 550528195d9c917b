// Big-endian encoding of 32- and 64-bit words, as the library's byteorder.h
// provides them (be32enc, be32dec, be64enc). That header is not part of this
// model; the functions below state directly what big-endian order means.
module ByteOrder {

  type Byte = bv8
  type Word = bv32

  const TWO_32: int := 0x1_0000_0000
  const TWO_64: int := 0x1_0000_0000_0000_0000

  /** be32enc: the four bytes of `w`, most significant first. */
  function Be32Enc(w: Word): (b: seq<Byte>)
    ensures |b| == 4
  {
    [(w >> 24) as Byte, ((w >> 16) & 0xff) as Byte, ((w >> 8) & 0xff) as Byte, (w & 0xff) as Byte]
  }

  /** be32dec: the word whose big-endian bytes are `b`. */
  function Be32Dec(b: seq<Byte>): (w: Word)
    requires |b| == 4
    ensures w >> 24 == b[0] as Word && (w >> 16) & 0xff == b[1] as Word
    ensures (w >> 8) & 0xff == b[2] as Word && w & 0xff == b[3] as Word
  {
    (b[0] as Word << 24) | (b[1] as Word << 16) | (b[2] as Word << 8) | b[3] as Word
  }

  lemma Be32DecEnc(w: Word)
    ensures Be32Dec(Be32Enc(w)) == w
  {
  }

  lemma Be32EncDec(b: seq<Byte>)
    requires |b| == 4
    ensures Be32Enc(Be32Dec(b)) == b
  {
  }

  /** be64enc of an unsigned 64-bit value: high word first, each word big-endian. */
  function Be64Enc(x: int): (b: seq<Byte>)
    requires 0 <= x < TWO_64
    ensures |b| == 8
  {
    Be32Enc((x / TWO_32) as Word) + Be32Enc((x % TWO_32) as Word)
  }

  /** Concatenated big-endian encodings of a vector of words. */
  function EncodeWords(ws: seq<Word>): (b: seq<Byte>)
    ensures |b| == 4 * |ws|
  {
    if ws == [] then [] else Be32Enc(ws[0]) + EncodeWords(ws[1..])
  }

  /** The vector of words whose concatenated big-endian encodings are `b`. */
  function DecodeWords(b: seq<Byte>): (ws: seq<Word>)
    requires |b| % 4 == 0
    ensures |ws| == |b| / 4
  {
    if b == [] then [] else [Be32Dec(b[..4])] + DecodeWords(b[4..])
  }

  /** Word i of an encoding occupies bytes 4i .. 4i+4. */
  lemma {:induction false} EncodeWordsAt(ws: seq<Word>, i: nat)
    requires i < |ws|
    ensures EncodeWords(ws)[4 * i .. 4 * i + 4] == Be32Enc(ws[i])
  {
    if i > 0 {
      EncodeWordsAt(ws[1..], i - 1);
      assert EncodeWords(ws) == Be32Enc(ws[0]) + EncodeWords(ws[1..]);
      assert EncodeWords(ws)[4 * i .. 4 * i + 4] == EncodeWords(ws[1..])[4 * (i - 1) .. 4 * (i - 1) + 4];
    }
  }

  /** Word i of a decoding comes from bytes 4i .. 4i+4. */
  lemma {:induction false} DecodeWordsAt(b: seq<Byte>, i: nat)
    requires |b| % 4 == 0 && i < |b| / 4
    ensures DecodeWords(b)[i] == Be32Dec(b[4 * i .. 4 * i + 4])
  {
    if i > 0 {
      DecodeWordsAt(b[4..], i - 1);
      assert b[4..][4 * (i - 1) .. 4 * (i - 1) + 4] == b[4 * i .. 4 * i + 4];
    }
  }

  lemma {:induction false} DecodeEncodeWords(ws: seq<Word>)
    ensures DecodeWords(EncodeWords(ws)) == ws
  {
    if ws != [] {
      var b := EncodeWords(ws);
      assert b[..4] == Be32Enc(ws[0]);
      assert b[4..] == EncodeWords(ws[1..]);
      Be32DecEnc(ws[0]);
      DecodeEncodeWords(ws[1..]);
    }
  }

  lemma {:induction false} EncodeDecodeWords(b: seq<Byte>)
    requires |b| % 4 == 0
    ensures EncodeWords(DecodeWords(b)) == b
  {
    if b != [] {
      var ws := DecodeWords(b);
      assert ws[0] == Be32Dec(b[..4]) && ws[1..] == DecodeWords(b[4..]);
      Be32EncDec(b[..4]);
      EncodeDecodeWords(b[4..]);
      assert b == b[..4] + b[4..];
    }
  }

  lemma {:induction false} EncodeWordsAppend(ws: seq<Word>, vs: seq<Word>)
    ensures EncodeWords(ws + vs) == EncodeWords(ws) + EncodeWords(vs)
  {
    if ws == [] {
      assert ws + vs == vs;
    } else {
      assert (ws + vs)[1..] == ws[1..] + vs;
      EncodeWordsAppend(ws[1..], vs);
    }
  }

  /** Encoding two more words appends their big-endian bytes. */
  lemma EncodeWordsSnoc2(ws: seq<Word>, x: Word, y: Word)
    ensures EncodeWords(ws + [x, y]) == EncodeWords(ws) + Be32Enc(x) + Be32Enc(y)
  {
    EncodeWordsAppend(ws, [x, y]);
    assert EncodeWords([x, y]) == Be32Enc(x) + EncodeWords([y]);
  }

  /** The first i + 1 pairs of words of s encode as the first i pairs
      followed by the next two words. */
  lemma EncodeWordsPairs(s: seq<Word>, i: nat)
    requires 2 * i + 2 <= |s|
    ensures EncodeWords(s[..2 * (i + 1)]) == EncodeWords(s[..2 * i]) + Be32Enc(s[2 * i]) + Be32Enc(s[2 * i + 1])
  {
    assert s[..2 * (i + 1)] == s[..2 * i] + [s[2 * i], s[2 * i + 1]];
    EncodeWordsSnoc2(s[..2 * i], s[2 * i], s[2 * i + 1]);
  }

  /** A word vector that agrees with every aligned group of four bytes of b
      is the decoding of b. */
  lemma DecodeWordsFrom(ws: seq<Word>, b: seq<Byte>)
    requires |b| == 4 * |ws|
    requires forall k :: 0 <= k < |ws| ==> ws[k] == Be32Dec(b[4 * k .. 4 * k + 4])
    ensures ws == DecodeWords(b)
  {
    forall k | 0 <= k < |ws|
      ensures ws[k] == DecodeWords(b)[k]
    {
      DecodeWordsAt(b, k);
    }
  }
}
