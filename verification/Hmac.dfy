/** HMAC-SHA256: section 2 of RFC 2104, and the two-context implementation of sha256.cpp. */
module Hmac {
  import opened Words
  import opened Sha256Spec
  import S = Sha256

  /** The key as a 64-octet block: hashed first when longer, then padded with zeros. */
  function KeyBlock(key: seq<byte>): (k: seq<byte>)
    ensures |k| == 64
  {
    var k := if |key| > 64 then Sha256(key) else key;
    k + Zeros(64 - |k|)
  }

  function Repeat(b: byte): (r: seq<byte>)
    ensures |r| == 64
  {
    seq(64, _ => b)
  }

  const IPAD: byte := 0x36
  const OPAD: byte := 0x5c

  function InnerKey(key: seq<byte>): (k: seq<byte>)
    ensures |k| == 64
  {
    XorBytes(KeyBlock(key), Repeat(IPAD))
  }

  function OuterKey(key: seq<byte>): (k: seq<byte>)
    ensures |k| == 64
  {
    XorBytes(KeyBlock(key), Repeat(OPAD))
  }

  /** H(K XOR opad, H(K XOR ipad, text)) */
  function Hmac(key: seq<byte>, text: seq<byte>): (d: seq<byte>)
    ensures |d| == 32
  {
    Sha256(OuterKey(key) + Sha256(InnerKey(key) + text))
  }

  /** The MAC written out: the key, hashed if longer than a block, in two blocks masked with 0x36 and 0x5c. */
  lemma MacInNumbers(key: seq<byte>, text: seq<byte>, inner: seq<byte>, outer: seq<byte>)
    requires |inner| == 64 && |outer| == 64
    requires var k := if |key| > 64 then Sha256(key) else key;
             forall i :: 0 <= i < 64 ==>
               inner[i] == (if i < |k| then k[i] else 0) ^ 0x36 && outer[i] == (if i < |k| then k[i] else 0) ^ 0x5c
    ensures Hmac(key, text) == Sha256(outer + Sha256(inner + text))
  {
    hide Sha256;
    assert inner == InnerKey(key);
    assert outer == OuterKey(key);
  }

  /** memset(pad, b, 64), then pad[i] ^= K[i]: the padded key block xor the constant. */
  method XorPad(b: byte, k: seq<byte>) returns (pad: array<byte>)
    requires |k| <= 64
    ensures fresh(pad) && pad[..] == XorBytes(k + Zeros(64 - |k|), Repeat(b))
  {
    pad := new byte[64](_ => b);
    for i := 0 to |k|
      invariant forall j :: 0 <= j < i ==> pad[j] == k[j] ^ b
      invariant forall j :: i <= j < 64 ==> pad[j] == b
    {
      XorCommutes(b, k[i]);
      pad[i] := pad[i] ^ k[i];
    }
    XorZero(b);
    assert forall j :: |k| <= j < 64 ==> pad[j] == 0 ^ b;
  }

  lemma XorCommutes(x: byte, y: byte)
    ensures x ^ y == y ^ x
  {
  }

  lemma XorZero(x: byte)
    ensures 0 ^ x == x
  {
  }

  class HmacCtx {
    const ictx: S.Sha256Ctx
    const octx: S.Sha256Ctx
    ghost const Repr: set<object>

    /** The key given to Init and the octets given to Update since. */
    ghost var key: seq<byte>
    ghost var text: seq<byte>

    constructor ()
      ensures Shape() && fresh(Repr)
    {
      var i := new S.Sha256Ctx();
      var o := new S.Sha256Ctx();
      ictx, octx := i, o;
      Repr := {this, i, i.state, i.buf, o, o.state, o.buf};
    }

    ghost predicate Shape()
    {
      && ictx.Shape() && octx.Shape()
      && Repr == {this, ictx, ictx.state, ictx.buf, octx, octx.state, octx.buf}
      && ictx != octx && ictx.state != octx.state && ictx.buf != octx.buf
    }

    /** Both inner contexts stand where the key and the text have left them. */
    ghost predicate Valid()
      reads this, Repr
    {
      && Shape() && ictx.Valid() && octx.Valid()
      && ictx.absorbed == InnerKey(key) + text
      && octx.absorbed == OuterKey(key)
    }

    /** libscrypt_HMAC_SHA256_Init */
    method Init(k: seq<byte>)
      requires Shape()
      modifies Repr
      ensures Valid() && key == k && text == []
    {
      hide S.Represents, S.Counts, Sha256Spec.Sha256, S.Sha256Ctx.Valid, XorBytes;
      var k' := k;
      if |k| > 64 {
        k' := HashKey(k);
      }
      Start(ictx, IPAD, k');
      Start(octx, OPAD, k');
      assert InnerKey(k) + [] == InnerKey(k);
      key, text := k, [];
    }

    /** Lines 311-315, and 318-322 for the outer context. */
    static method Start(ctx: S.Sha256Ctx, b: byte, k: seq<byte>)
      requires |k| <= 64 && ctx.Shape()
      modifies ctx, ctx.state, ctx.buf
      ensures ctx.Valid() && ctx.absorbed == XorBytes(k + Zeros(64 - |k|), Repeat(b))
    {
      hide *;
      ctx.Init();
      var pad := XorPad(b, k);
      ctx.Update(pad[..]);
      assert ctx.absorbed == pad[..];
    }

    /** libscrypt_HMAC_SHA256_Init, lines 303-305. */
    method HashKey(k: seq<byte>) returns (khash: seq<byte>)
      requires Shape()
      modifies ictx, ictx.state, ictx.buf
      ensures khash == Sha256(k)
    {
      hide S.Represents, S.Counts, Sha256Spec.Sha256;
      var d := new byte[32];
      ictx.Init();
      ictx.Update(k);
      assert ictx.absorbed == k;
      ictx.Final(d);
      khash := d[..];
    }

    /** libscrypt_HMAC_SHA256_Update */
    method Update(input: seq<byte>)
      requires Valid()
      modifies Repr
      ensures Valid() && key == old(key) && text == old(text) + input
    {
      hide S.Represents, S.Counts, Sha256Spec.Sha256, InnerKey, OuterKey;
      ictx.Update(input);
      text := text + input;
    }

    /** libscrypt_HMAC_SHA256_Final: the digest is the HMAC of the text under the key. */
    method Final(digest: array<byte>)
      requires Valid() && digest.Length == 32 && digest !in Repr
      modifies Repr, digest
      ensures Shape() && digest[..] == Hmac(old(key), old(text))
    {
      hide S.Represents, S.Counts, Sha256Spec.Sha256, InnerKey, OuterKey;
      var ihash := new byte[32];
      ictx.Final(ihash);
      octx.Update(ihash[..]);
      octx.Final(digest);
    }

    /** memcpy(this, other, sizeof(HMAC_SHA256_CTX)) */
    method CopyFrom(other: HmacCtx)
      requires Shape() && other.Valid() && Repr !! other.Repr
      modifies Repr
      ensures Valid() && key == other.key && text == other.text
    {
      hide S.Represents, S.Counts, Sha256Spec.Sha256, InnerKey, OuterKey;
      ictx.CopyFrom(other.ictx);
      octx.CopyFrom(other.octx);
      key, text := other.key, other.text;
    }
  }
}
