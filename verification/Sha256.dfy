/** The streaming interface of sha256.cpp: Init, Update, Pad and Final over an in-place context. */
module Sha256 {
  import opened Words
  import opened Sha256Spec
  import opened Sha256Transform

  /** memcpy(&dst[off], src, |src|) */
  method Memcpy<T>(dst: array<T>, off: nat, src: seq<T>)
    requires off + |src| <= dst.Length
    modifies dst
    ensures dst[..] == old(dst[..off]) + src + old(dst[off + |src|..])
  {
    for i := 0 to |src|
      invariant dst[..off] == old(dst[..off])
      invariant dst[off..off + i] == src[..i]
      invariant dst[off + i..] == old(dst[off + i..])
    {
      dst[off + i] := src[i];
    }
    assert dst[..] == dst[..off] + dst[off..off + |src|] + dst[off + |src|..];
  }

  /** memcpy over the whole of dst */
  method CopyAll<T>(dst: array<T>, src: seq<T>)
    requires |src| == dst.Length
    modifies dst
    ensures dst[..] == src
  {
    Memcpy(dst, 0, src);
  }

  const MOD64: int := 0x1_0000_0000_0000_0000

  /** The two halves of `count` hold the number of bits in n octets, modulo 2^64. */
  ghost predicate Counts(hi: int, lo: int, n: nat)
  {
    0 <= lo < TWO32 && 0 <= hi < TWO32 && (8 * n - hi * TWO32 - lo) % MOD64 == 0
  }

  lemma Quotient(x: int) returns (q: int)
    requires x % MOD64 == 0
    ensures x == q * MOD64
  {
    q := x / MOD64;
  }

  lemma Shift64(m: int, k: int)
    ensures (m + 64 * k) % 64 == m % 64
  {
  }

  /** The low six bits of the octet count survive in count[1]. */
  lemma BufferedBits(hi: int, lo: int, n: nat)
    requires Counts(hi, lo, n)
    ensures lo / 8 % 64 == n % 64
  {
    var q := Quotient(8 * n - hi * TWO32 - lo);
    var k := q * 0x80_0000_0000_0000 + hi * 0x80_0000;
    var m := n - 64 * k;
    assert lo == 8 * m && lo / 8 == m;
    Shift64(m, k);
  }

  /** Adding with carry on two 32-bit halves is addition modulo 2^64. */
  lemma CarrySum(hi: int, lo: int, n: nat, len: nat)
    requires Counts(hi, lo, n)
    ensures var b1, b0 := len % TWO32 * 8 % TWO32, len / 0x2000_0000 % TWO32;
            var s1 := (lo + b1) % TWO32;
            var h1 := if s1 < b1 then (hi + 1) % TWO32 else hi;
            Counts((h1 + b0) % TWO32, s1, n + len)
  {
    var b1, b0 := len % TWO32 * 8 % TWO32, len / 0x2000_0000 % TWO32;
    LengthInBits(len);
    var s1, carry := LowHalf(lo, b1);
    var h := ((if s1 < b1 then (hi + 1) % TWO32 else hi) + b0) % TWO32;
    HighHalf(hi, carry, b0);
    CongruentSum(8 * n - hi * TWO32 - lo, 8 * len - b0 * TWO32 - b1, (hi + carry + b0 - h) * TWO32);
  }

  lemma CongruentSum(x: int, y: int, z: int)
    requires x % MOD64 == 0 && y % MOD64 == 0 && z % MOD64 == 0
    ensures (x + y + z) % MOD64 == 0
  {
  }

  lemma LowHalf(lo: int, b1: int) returns (s1: int, carry: int)
    requires 0 <= lo < TWO32 && 0 <= b1 < TWO32
    ensures s1 == (lo + b1) % TWO32 == lo + b1 - carry * TWO32
    ensures carry == if s1 < b1 then 1 else 0
  {
    s1 := (lo + b1) % TWO32;
    carry := if s1 < b1 then 1 else 0;
  }

  lemma LengthInBits(len: nat)
    ensures (8 * len - len / 0x2000_0000 % TWO32 * TWO32 - len % TWO32 * 8 % TWO32) % MOD64 == 0
  {
    assert len % TWO32 * 8 % TWO32 == 8 * (len % 0x2000_0000);
    var h := len / 0x2000_0000;
    assert 8 * len == h * TWO32 + 8 * (len % 0x2000_0000);
    assert h == h / TWO32 * TWO32 + h % TWO32;
  }

  lemma HighHalf(hi: int, carry: int, b0: int)
    requires 0 <= hi < TWO32 && 0 <= carry <= 1 && 0 <= b0 < TWO32
    ensures (hi + carry + b0 - ((if carry == 1 then (hi + 1) % TWO32 else hi) + b0) % TWO32) * TWO32 % MOD64 == 0
  {
    var k := (hi + carry + b0 - ((if carry == 1 then (hi + 1) % TWO32 else hi) + b0) % TWO32);
    assert k == 0 || k == TWO32 || k == 2 * TWO32;
  }

  /** The number of octets of n that form complete blocks. */
  function Full(n: nat): (f: nat)
    ensures f % 64 == 0 && f <= n < f + 64 && n - f == n % 64
  {
    n - n % 64
  }

  /** The chaining value and the buffer represent the octets a. */
  ghost predicate Represents(state: seq<word>, buf: seq<byte>, a: seq<byte>)
  {
    && |state| == 8 && |buf| == 64
    && RegsOf(state) == HashBlocks(a[..Full(|a|)])
    && buf[..|a| % 64] == a[Full(|a|)..]
  }

  /** The octets still short of a block leave the chaining value alone. */
  lemma ShortUpdate(state: seq<word>, buf: seq<byte>, a: seq<byte>, input: seq<byte>)
    requires Represents(state, buf, a) && |a| % 64 + |input| < 64
    ensures var r := |a| % 64;
            Represents(state, buf[..r] + input + buf[r + |input|..], a + input)
  {
    hide HashBlocks, RegsOf;
    var r := |a| % 64;
    var b := buf[..r] + input + buf[r + |input|..];
    assert Full(|a + input|) == Full(|a|);
    assert (a + input)[..Full(|a|)] == a[..Full(|a|)];
    assert b[..r + |input|] == buf[..r] + input;
    assert (a + input)[Full(|a|)..] == a[Full(|a|)..] + input;
  }

  /** Filling the buffer and compressing it hashes one more block of the whole input. */
  lemma FirstBlock(state: seq<word>, buf: seq<byte>, a: seq<byte>, input: seq<byte>, filled: seq<byte>)
    requires Represents(state, buf, a) && |a| % 64 + |input| >= 64
    requires filled == buf[..|a| % 64] + input[..64 - |a| % 64] + buf[64..]
    ensures |filled| == 64
    ensures HashBlocks((a + input)[..|a| + 64 - |a| % 64]) == Compress(RegsOf(state), filled)
  {
    hide HashBlocks, Compress, RegsOf;
    var full, r := Full(|a|), |a| % 64;
    assert filled == a[full..] + input[..64 - r];
    HashOneMore(a[..full], filled);
    assert (a + input)[..|a| + 64 - r] == a[..full] + filled;
  }

  /** Compressing a block straight from the input does the same. */
  lemma NextBlock(a: seq<byte>, input: seq<byte>, src: nat)
    requires src + 64 <= |input| && (|a| + src) % 64 == 0
    ensures var done := |a| + src;
            HashBlocks((a + input)[..done + 64]) == Compress(HashBlocks((a + input)[..done]), input[src..src + 64])
  {
    hide HashBlocks, Compress;
    var done := |a| + src;
    HashOneMore((a + input)[..done], input[src..src + 64]);
    assert (a + input)[..done + 64] == (a + input)[..done] + input[src..src + 64];
  }

  /** What is left over goes to the front of the buffer. */
  lemma LastOctets(state: seq<word>, buf: seq<byte>, a: seq<byte>, input: seq<byte>, src: nat)
    requires |state| == 8 && |buf| == 64 && src <= |input| < src + 64 && (|a| + src) % 64 == 0
    requires RegsOf(state) == HashBlocks((a + input)[..|a| + src])
    ensures Represents(state, [] + input[src..] + buf[|input| - src..], a + input)
  {
    hide HashBlocks, RegsOf;
    assert Full(|a + input|) == |a| + src;
    var b := [] + input[src..] + buf[|input| - src..];
    assert b[..|input| - src] == input[src..] == (a + input)[|a| + src..];
  }

  /** The constant PAD: one set bit, then zeros. */
  function PadBlock(): (p: seq<byte>)
    ensures |p| == 64
  {
    [0x80] + Zeros(63)
  }

  function PadLength(r: nat): nat
    requires r < 64
  {
    if r < 56 then 56 - r else 120 - r
  }

  /** The octets SHA256_Pad appends are the padding of section 5.1.1. */
  lemma PaddingIsStandard(m: seq<byte>, hi: int, lo: int)
    requires Counts(hi, lo, |m|)
    ensures var plen := PadLength(|m| % 64);
            plen <= 64 && m + PadBlock()[..plen] + (Be32EncNat(hi) + Be32EncNat(lo)) == Padded(m)
  {
    var plen := PadLength(|m| % 64);
    assert plen == 1 + PadZeros(|m|);
    assert PadBlock()[..plen] == [0x80] + Zeros(PadZeros(|m|));
    LengthField(hi, lo, |m|);
    hide Be32EncNat, BigEndian;
    assert m + ([0x80] + Zeros(PadZeros(|m|))) == m + [0x80] + Zeros(PadZeros(|m|));
  }

  lemma LengthField(hi: int, lo: int, n: nat)
    requires Counts(hi, lo, n)
    ensures Be32EncNat(hi) + Be32EncNat(lo) == BigEndian(8 * n, 8)
  {
    SplitBigEndian(hi, lo);
    var x := hi * TWO32 + lo;
    var q := (8 * n - x) / MOD64;
    hide Be32EncNat, BigEndian;
    PowValue();
    BigEndianModulo(x, q, 8);
  }

  lemma PowValue()
    ensures Pow256(8) == MOD64
  {
    assert Pow256(4) == 256 * (256 * (256 * (256 * Pow256(0))));
    assert Pow256(8) == 256 * (256 * (256 * (256 * Pow256(4))));
  }

  class Sha256Ctx {
    const state: array<word>
    const buf: array<byte>
    /** count[0] and count[1]: the number of bits hashed, most significant half first. */
    var count0: uint32
    var count1: uint32

    /** Every octet passed to Update since Init. */
    ghost var absorbed: seq<byte>

    constructor ()
      ensures Shape() && fresh(state) && fresh(buf)
    {
      state := new word[8];
      buf := new byte[64];
    }

    ghost predicate Shape()
    {
      state.Length == 8 && buf.Length == 64
    }

    /** The buffer, the bit count and the chaining value together represent `absorbed`. */
    ghost predicate Valid()
      reads this, state, buf
    {
      && Shape()
      && Counts(count0 as int, count1 as int, |absorbed|)
      && Represents(state[..], buf[..], absorbed)
    }

    /** libscrypt_SHA256_Init */
    method Init()
      requires Shape()
      modifies this, state
      ensures Valid() && absorbed == []
    {
      count0, count1 := 0, 0;
      InitialState();
      absorbed := [];
      hide RegsOf;
    }

    method InitialState()
      requires Shape()
      modifies state
      ensures RegsOf(state[..]) == H0
    {
      state[0], state[1], state[2], state[3] := 0x6A09E667, 0xBB67AE85, 0x3C6EF372, 0xA54FF53A;
      state[4], state[5], state[6], state[7] := 0x510E527F, 0x9B05688C, 0x1F83D9AB, 0x5BE0CD19;
    }

    /** libscrypt_SHA256_Update, lines 242-249: the two-word bit count. */
    method AddBits(len: nat)
      requires Counts(count0 as int, count1 as int, |absorbed|)
      modifies `count0, `count1
      ensures Counts(count0 as int, count1 as int, |absorbed| + len)
    {
      CarrySum(count0 as int, count1 as int, |absorbed|, len);
      hide Counts;
      var bitlen1 := len % TWO32 * 8 % TWO32;
      var bitlen0 := len / 0x2000_0000 % TWO32;
      count1 := ((count1 as int + bitlen1) % TWO32) as uint32;
      if count1 as int < bitlen1 {
        count0 := ((count0 as int + 1) % TWO32) as uint32;
      }
      count0 := ((count0 as int + bitlen0) % TWO32) as uint32;
    }

    /** libscrypt_SHA256_Update */
    method Update(input: seq<byte>)
      requires Valid()
      modifies this, state, buf
      ensures Valid() && absorbed == old(absorbed) + input
    {
      hide Represents, Counts, Full, HashBlocks, RegsOf;
      BufferedBits(count0 as int, count1 as int, |absorbed|);
      var r := count1 as int / 8 % 64;
      AddBits(|input|);
      if |input| < 64 - r {
        Buffer(r, input);
      } else {
        FinishBlocks(r, input);
      }
      absorbed := absorbed + input;
    }

    /** libscrypt_SHA256_Update, line 253. */
    method Buffer(r: nat, input: seq<byte>)
      requires Shape() && r == |absorbed| % 64 && |input| < 64 - r
      requires Represents(state[..], buf[..], absorbed)
      modifies buf
      ensures Represents(state[..], buf[..], absorbed + input)
    {
      hide Represents;
      ShortUpdate(state[..], buf[..], absorbed, input);
      Memcpy(buf, r, input);
    }

    /** libscrypt_SHA256_Update, lines 257-271. */
    method FinishBlocks(r: nat, input: seq<byte>)
      requires Shape() && r == |absorbed| % 64 && |input| >= 64 - r
      requires Represents(state[..], buf[..], absorbed)
      modifies state, buf
      ensures Represents(state[..], buf[..], absorbed + input)
    {
      hide Represents, HashBlocks, RegsOf, Compress;
      ghost var before := buf[..];
      Memcpy(buf, r, input[..64 - r]);
      FirstBlock(state[..], before, absorbed, input, buf[..]);
      Transform(state, buf[..]);
      var src := AbsorbBlocks(64 - r, input);
      LastOctets(state[..], buf[..], absorbed, input, src);
      Memcpy(buf, 0, input[src..]);
    }

    /** libscrypt_SHA256_Update, lines 263-268: complete blocks straight from the input. */
    method AbsorbBlocks(first: nat, input: seq<byte>) returns (src: nat)
      requires Shape() && first <= |input| && (|absorbed| + first) % 64 == 0
      requires RegsOf(state[..]) == HashBlocks((absorbed + input)[..|absorbed| + first])
      modifies state
      ensures src <= |input| < src + 64 && (|absorbed| + src) % 64 == 0
      ensures RegsOf(state[..]) == HashBlocks((absorbed + input)[..|absorbed| + src])
    {
      hide HashBlocks, RegsOf, Compress;
      src := first;
      while |input| - src >= 64
        invariant src <= |input| && (|absorbed| + src) % 64 == 0
        invariant RegsOf(state[..]) == HashBlocks((absorbed + input)[..|absorbed| + src])
      {
        NextBlock(absorbed, input, src);
        Transform(state, input[src..src + 64]);
        src := src + 64;
      }
    }

    /** SHA256_Pad */
    method Pad()
      requires Valid()
      modifies this, state, buf
      ensures Valid() && absorbed == Padded(old(absorbed))
    {
      PaddingIsStandard(absorbed, count0 as int, count1 as int);
      BufferedBits(count0 as int, count1 as int, |absorbed|);
      hide Represents, Counts, PadBlock, Padded, Be32EncNat;
      var len := Be32EncNat(count0 as int) + Be32EncNat(count1 as int);
      var r := count1 as int / 8 % 64;
      Update(PadBlock()[..PadLength(r)]);
      Update(len);
    }

    /** libscrypt_SHA256_Final: the digest is SHA-256 of everything absorbed; the context is cleared. */
    method Final(digest: array<byte>)
      requires Valid() && digest.Length == 32 && digest != buf
      modifies this, state, buf, digest
      ensures digest[..] == Sha256Spec.Sha256(old(absorbed))
      ensures Shape() && count0 == 0 && count1 == 0 && state[..] == seq(8, _ => 0) && buf[..] == Zeros(64)
    {
      hide Counts, Padded, HashBlocks, Be32Enc;
      Pad();
      EncodeState(state, digest);
      WholeBlocks(state[..], buf[..], absorbed);
      assert state[..] == [state[0], state[1], state[2], state[3], state[4], state[5], state[6], state[7]];
      Clear();
    }

    /** memset(ctx, 0, sizeof(*ctx)) */
    method Clear()
      requires Shape()
      modifies this, state, buf
      ensures count0 == 0 && count1 == 0 && state[..] == seq(8, _ => 0) && buf[..] == Zeros(64)
    {
      count0, count1 := 0, 0;
      forall i | 0 <= i < 8 { state[i] := 0; }
      forall i | 0 <= i < 64 { buf[i] := 0; }
    }

    /** memcpy(this, other, sizeof(*this)) */
    method CopyFrom(other: Sha256Ctx)
      requires Shape() && other.Valid() && state != other.state && buf != other.buf
      modifies this, state, buf
      ensures Valid() && absorbed == other.absorbed
    {
      hide Represents, Counts;
      CopyAll(state, other.state[..]);
      CopyAll(buf, other.buf[..]);
      count0, count1 := other.count0, other.count1;
      absorbed := other.absorbed;
    }
  }

  lemma WholeBlocks(state: seq<word>, buf: seq<byte>, a: seq<byte>)
    requires Represents(state, buf, a) && |a| % 64 == 0
    ensures RegsOf(state) == HashBlocks(a)
  {
    hide RegsOf, HashBlocks;
    assert a[..Full(|a|)] == a;
  }

  /** be32enc_vect(digest, state, 32) */
  method EncodeState(src: array<word>, dst: array<byte>)
    requires src.Length == 8 && dst.Length == 32
    modifies dst
    ensures dst[..] == EncodeWords(src[..])
  {
    hide Be32Enc;
    for i := 0 to 8
      invariant dst[..4 * i] == EncodeWords(src[..i])
    {
      Memcpy(dst, 4 * i, Be32Enc(src[i]));
      assert src[..i + 1][..i] == src[..i];
    }
    assert src[..8] == src[..] && dst[..32] == dst[..];
  }

  /** Any message, cut into any sequence of updates, hashes to its SHA-256 digest. */
  method DigestChunks(ctx: Sha256Ctx, chunks: seq<seq<byte>>, digest: array<byte>)
    requires ctx.Shape() && digest.Length == 32 && digest != ctx.buf
    modifies ctx, ctx.state, ctx.buf, digest
    ensures digest[..] == Sha256Spec.Sha256(Concat(chunks))
  {
    hide Represents, Counts, Sha256Spec.Sha256;
    ctx.Init();
    for i := 0 to |chunks|
      invariant ctx.Valid() && ctx.absorbed == Concat(chunks[..i])
    {
      ctx.Update(chunks[i]);
      assert chunks[..i + 1][..i] == chunks[..i];
    }
    assert chunks[..|chunks|] == chunks;
    ctx.Final(digest);
  }

  function Concat(chunks: seq<seq<byte>>): seq<byte>
  {
    if chunks == [] then [] else Concat(chunks[..|chunks| - 1]) + chunks[|chunks| - 1]
  }
}
