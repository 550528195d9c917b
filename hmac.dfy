// HMAC-SM3 as declared in lib/alg-sm3-hmac.h: the construction of section 2
// of RFC 2104 over the SM3 hash of module Sm3Spec, and a context shaped like
// sm3_hmac_ctx_t (an sm3_ctx plus a 64-byte key field) driven through the
// streaming SM3 context of module Sm3Context. The header fixes only the
// 64-byte key field; this model keeps K ^ opad there after init, and has
// final erase the key field and the SM3 context. The HMAC implementation
// file is not modelled; the methods below follow the RFC.
module Sm3Hmac {
  import opened ByteOrder
  import opened Sm3Spec
  import opened Xbzero
  import opened Sm3Context

  /** The inner and outer pad bytes of RFC 2104. */
  const IPAD: Byte := 0x36
  const OPAD: Byte := 0x5c

  /** The key block K: a key longer than one SM3 block (64 bytes) is first
      replaced by its 32-byte hash; then zeros pad it to 64 bytes. */
  function KeyBlock(key: seq<Byte>): (k: seq<Byte>)
    ensures |k| == 64
  {
    var short := if |key| > 64 then Hash(key) else key;
    short + Zeros(64 - |short|)
  }

  /** K XOR (pad repeated 64 times). */
  function XorPad(k: seq<Byte>, pad: Byte): (r: seq<Byte>)
    requires |k| == 64
    ensures |r| == 64
  {
    seq(64, i requires 0 <= i < 64 => k[i] ^ pad)
  }

  /** XOR with the same pad twice gives the key block back, so K can be
      recovered from K ^ ipad and the two pads carry the whole key. */
  lemma XorPadInvolutive(k: seq<Byte>, pad: Byte)
    requires |k| == 64
    ensures XorPad(XorPad(k, pad), pad) == k
  {
    var r := XorPad(XorPad(k, pad), pad);
    forall i | 0 <= i < 64
      ensures r[i] == k[i]
    {
      assert r[i] == (k[i] ^ pad) ^ pad;
    }
  }

  /** HMAC-SM3(key, data) = H((K ^ opad) || H((K ^ ipad) || data)). */
  function Hmac(key: seq<Byte>, data: seq<Byte>): (mac: seq<Byte>)
    ensures |mac| == 32
  {
    var k := KeyBlock(key);
    Hash(XorPad(k, OPAD) + Hash(XorPad(k, IPAD) + data))
  }

  /** A key of at most 64 bytes is kept and padded with zeros. */
  lemma KeyBlockShort(key: seq<Byte>)
    requires |key| <= 64
    ensures KeyBlock(key)[..|key|] == key
    ensures forall i :: |key| <= i < 64 ==> KeyBlock(key)[i] == 0
  {
  }

  /** A longer key is replaced by its hash, padded with zeros. */
  lemma KeyBlockLong(key: seq<Byte>)
    requires |key| > 64
    ensures KeyBlock(key)[..32] == Hash(key)
    ensures forall i :: 32 <= i < 64 ==> KeyBlock(key)[i] == 0
  {
  }

  /** A key of up to 63 bytes and the same key with a zero byte appended
      give the same key block, hence the same MAC. */
  lemma HmacZeroExtendedKey(key: seq<Byte>, data: seq<Byte>)
    requires |key| < 64
    ensures Hmac(key + [0], data) == Hmac(key, data)
  {
    assert Zeros(64 - |key|) == [0] + Zeros(63 - |key|);
    assert KeyBlock(key + [0]) == key + [0] + Zeros(63 - |key|);
    assert KeyBlock(key + [0]) == KeyBlock(key);
  }

  /** A key longer than a block and its hash give the same MAC. */
  lemma HmacLongKey(key: seq<Byte>, data: seq<Byte>)
    requires |key| > 64
    ensures Hmac(key, data) == Hmac(Hash(key), data)
  {
    assert KeyBlock(key) == KeyBlock(Hash(key));
  }

  /** K ^ ipad is exactly one SM3 block at the head of the padded inner
      message, so the inner hash continues from the chaining value
      Compress(IV, K ^ ipad), whatever the data. */
  lemma InnerKeyBlock(k: seq<Byte>, data: seq<Byte>)
    requires |k| == 64
    ensures Pad(XorPad(k, IPAD) + data)[..64] == XorPad(k, IPAD)
    ensures |Pad(XorPad(k, IPAD) + data)[64..]| % 64 == 0
    ensures Chain(IV, Pad(XorPad(k, IPAD) + data))
         == Chain(Compress(IV, XorPad(k, IPAD)), Pad(XorPad(k, IPAD) + data)[64..])
  {
    var head := XorPad(k, IPAD);
    var p := Pad(head + data);
    var rest := p[64..];
    assert (head + data)[..64] == head;
    assert p[..64] == head;
    BlockAligned(|p|);
    assert p == head + rest;
    ChainAppend(IV, head, rest);
    ChainSnoc(IV, [], head);
    assert [] + head == head;
  }

  /** Write the key block K of key k into the 64-byte key field. */
  method LoadKey(key: array<Byte>, k: seq<Byte>)
    requires key.Length == 64
    modifies key
    ensures key[..] == KeyBlock(k)
  {
    ExplicitBzero(key, 64, 0);
    if |k| > 64 {
      var digest := new Byte[32](_ => 0);
      Sm3Buf(k, digest);
      Memcpy(key, 0, digest[..]);
    } else {
      Memcpy(key, 0, k);
    }
  }

  /** XOR every byte of the 64-byte key field with pad, in place. */
  method XorKey(key: array<Byte>, pad: Byte)
    requires key.Length == 64
    modifies key
    ensures key[..] == XorPad(old(key[..]), pad)
  {
    for i := 0 to 64
      invariant forall j :: 0 <= j < i ==> key[j] == old(key[j]) ^ pad
      invariant forall j :: i <= j < 64 ==> key[j] == old(key[j])
    {
      key[i] := key[i] ^ pad;
    }
  }

  /** sm3_init, then sm3_update with data. */
  method Restart(ctx: Ctx, data: seq<Byte>)
    requires ctx.state.Length == 8 && ctx.buf.Length == 64
    modifies ctx, ctx.state, ctx.buf
    ensures ctx.Valid() && ctx.absorbed == data
  {
    ctx.Init();
    ctx.Update(data);
    assert [] + data == data;
  }

  /** The key field holds K ^ opad for the key block K of secret, and the
      inner hash has absorbed K ^ ipad followed by message. */
  ghost predicate Keyed(field: seq<Byte>, secret: seq<Byte>, absorbed: seq<Byte>, message: seq<Byte>)
  {
    field == XorPad(KeyBlock(secret), OPAD) && absorbed == XorPad(KeyBlock(secret), IPAD) + message
  }

  /** Absorbing more data keeps Keyed, with the data added to the message. */
  lemma KeyedUpdate(field: seq<Byte>, secret: seq<Byte>, absorbed: seq<Byte>, message: seq<Byte>, data: seq<Byte>)
    requires Keyed(field, secret, absorbed, message)
    ensures Keyed(field, secret, absorbed + data, message + data)
  {
    var inner := XorPad(KeyBlock(secret), IPAD);
    assert inner + message + data == inner + (message + data);
  }

  /** sm3_hmac_ctx_t: an SM3 context and a 64-byte key field. */
  class HmacCtx {
    const ctx: Ctx
    const key: array<Byte>
    /** The key given to Init, and the data input since. */
    ghost var secret: seq<Byte>
    ghost var message: seq<Byte>

    /** The key field holds K ^ opad, and the SM3 context has absorbed
        K ^ ipad followed by the data. */
    ghost predicate Valid()
      reads this, ctx, ctx.state, ctx.buf, key
    {
      key.Length == 64 && key != ctx.buf && ctx.Valid() && Keyed(key[..], secret, ctx.absorbed, message)
    }

    constructor()
      ensures ctx.state.Length == 8 && ctx.buf.Length == 64 && key.Length == 64 && key != ctx.buf
      ensures fresh(ctx) && fresh(ctx.state) && fresh(ctx.buf) && fresh(key)
    {
      ctx := new Ctx();
      key := new Byte[64](_ => 0);
      secret, message := [], [];
    }

    /** sm3_hmac_init: form K, absorb K ^ ipad into the SM3 context and
        keep K ^ opad in the key field for the outer hash. */
    method Init(k: seq<Byte>)
      requires ctx.state.Length == 8 && ctx.buf.Length == 64 && key.Length == 64 && key != ctx.buf
      modifies this, ctx, ctx.state, ctx.buf, key
      ensures Valid() && secret == k && message == []
      ensures key[..] == XorPad(KeyBlock(k), OPAD)
    {
      LoadKey(key, k);
      var ipad := XorPad(key[..], IPAD);
      Restart(ctx, ipad);
      assert ipad + [] == ipad;
      XorKey(key, OPAD);
      secret, message := k, [];
    }

    /** sm3_hmac_update: absorb more data into the inner hash. */
    method Update(data: seq<Byte>)
      requires Valid()
      modifies this, ctx, ctx.state, ctx.buf
      ensures Valid() && secret == old(secret) && message == old(message) + data
    {
      ctx.Update(data);
      KeyedUpdate(key[..], secret, old(ctx.absorbed), message, data);
      message := message + data;
    }

    /** sm3_hmac_final: finish the inner hash, hash the K ^ opad of the key
        field followed by the inner hash into mac, then erase the SM3 context
        and the key field. */
    method Final(mac: array<Byte>)
      requires Valid() && mac.Length == 32 && mac != ctx.buf && mac != key
      modifies ctx, ctx.state, ctx.buf, key, mac
      ensures mac[..] == Hmac(secret, message)
      ensures ctx.state[..] == seq(8, _ => 0) && ctx.count == 0 && ctx.buf[..] == seq(64, _ => 0)
      ensures key[..] == seq(64, _ => 0)
    {
      var inner := new Byte[32](_ => 0);
      ctx.Final(inner);
      assert inner[..] == Hash(XorPad(KeyBlock(secret), IPAD) + message);
      Restart(ctx, key[..]);
      ctx.Update(inner[..]);
      assert ctx.absorbed == XorPad(KeyBlock(secret), OPAD) + inner[..];
      ctx.Final(mac);
      ExplicitBzero(key, 64, 0);
      ExplicitBzero(inner, 32, 0);
      assert key[..] == seq(64, _ => 0);
    }
  }

  /** sm3_hmac: init, update with data and final on the caller's context. */
  method HmacHash(data: seq<Byte>, key: seq<Byte>, mac: array<Byte>, hctx: HmacCtx)
    requires hctx.ctx.state.Length == 8 && hctx.ctx.buf.Length == 64
    requires hctx.key.Length == 64 && hctx.key != hctx.ctx.buf
    requires mac.Length == 32 && mac != hctx.ctx.buf && mac != hctx.key
    modifies hctx, hctx.ctx, hctx.ctx.state, hctx.ctx.buf, hctx.key, mac
    ensures mac[..] == Hmac(key, data)
    ensures hctx.ctx.state[..] == seq(8, _ => 0) && hctx.ctx.count == 0 && hctx.ctx.buf[..] == seq(64, _ => 0)
    ensures hctx.key[..] == seq(64, _ => 0)
  {
    hctx.Init(key);
    hctx.Update(data);
    assert hctx.message == data;
    hctx.Final(mac);
  }

  /** sm3_hmac_buf: sm3_hmac on a context of its own. */
  method HmacBuf(data: seq<Byte>, key: seq<Byte>, mac: array<Byte>)
    requires mac.Length == 32
    modifies mac
    ensures mac[..] == Hmac(key, data)
  {
    var hctx := new HmacCtx();
    HmacHash(data, key, mac, hctx);
  }
}
