/** SHA-256 as FIPS 180-4 defines it: the reference the code in Sha256.dfy is proved against. */
module Sha256Spec {
  import opened Words

  /** The eight working variables, and also a hash value H^(i). */
  datatype Regs = Regs(a: word, b: word, c: word, d: word, e: word, f: word, g: word, h: word)

  /** Section 5.3.3. */
  const H0: Regs := Regs(0x6A09E667, 0xBB67AE85, 0x3C6EF372, 0xA54FF53A, 0x510E527F, 0x9B05688C, 0x1F83D9AB, 0x5BE0CD19)

  /** Section 4.2.2. */
  function K(): (k: seq<word>)
    ensures |k| == 64
  {
    [0x428a2f98, 0x71374491, 0xb5c0fbcf, 0xe9b5dba5, 0x3956c25b, 0x59f111f1, 0x923f82a4, 0xab1c5ed5,
     0xd807aa98, 0x12835b01, 0x243185be, 0x550c7dc3, 0x72be5d74, 0x80deb1fe, 0x9bdc06a7, 0xc19bf174] +
    [0xe49b69c1, 0xefbe4786, 0x0fc19dc6, 0x240ca1cc, 0x2de92c6f, 0x4a7484aa, 0x5cb0a9dc, 0x76f988da,
     0x983e5152, 0xa831c66d, 0xb00327c8, 0xbf597fc7, 0xc6e00bf3, 0xd5a79147, 0x06ca6351, 0x14292967] +
    [0x27b70a85, 0x2e1b2138, 0x4d2c6dfc, 0x53380d13, 0x650a7354, 0x766a0abb, 0x81c2c92e, 0x92722c85,
     0xa2bfe8a1, 0xa81a664b, 0xc24b8b70, 0xc76c51a3, 0xd192e819, 0xd6990624, 0xf40e3585, 0x106aa070] +
    [0x19a4c116, 0x1e376c08, 0x2748774c, 0x34b0bcb5, 0x391c0cb3, 0x4ed8aa4a, 0x5b9cca4f, 0x682e6ff3,
     0x748f82ee, 0x78a5636f, 0x84c87814, 0x8cc70208, 0x90befffa, 0xa4506ceb, 0xbef9a3f7, 0xc67178f2]
  }

  // Sections 3.2 and 4.1.2.

  function Rotr(x: word, n: bv32): word
    requires n <= 32
  {
    (x >> n) | (x << (32 - n))
  }

  function Ch(x: word, y: word, z: word): word { (x & y) ^ (!x & z) }

  function Maj(x: word, y: word, z: word): word { (x & y) ^ (x & z) ^ (y & z) }

  function BigSigma0(x: word): word { Rotr(x, 2) ^ Rotr(x, 13) ^ Rotr(x, 22) }

  function BigSigma1(x: word): word { Rotr(x, 6) ^ Rotr(x, 11) ^ Rotr(x, 25) }

  function SmallSigma0(x: word): word { Rotr(x, 7) ^ Rotr(x, 18) ^ (x >> 3) }

  function SmallSigma1(x: word): word { Rotr(x, 17) ^ Rotr(x, 19) ^ (x >> 10) }

  /** W_t of the message schedule, section 6.2.2 step 1. */
  function Schedule(block: seq<byte>, t: nat): word
    requires |block| == 64
  {
    if t < 16 then
      Be32Dec(block[4 * t..4 * t + 4])
    else
      Add(Add(Add(SmallSigma1(Schedule(block, t - 2)), Schedule(block, t - 7)),
              SmallSigma0(Schedule(block, t - 15))), Schedule(block, t - 16))
  }

  /** One pass of section 6.2.2 step 3: every register moves down by one. */
  function Round(s: Regs, k: word, w: word): Regs
  {
    var t1 := Add(Add(Add(s.h, BigSigma1(s.e)), Ch(s.e, s.f, s.g)), Add(k, w));
    var t2 := Add(BigSigma0(s.a), Maj(s.a, s.b, s.c));
    Regs(Add(t1, t2), s.a, s.b, s.c, Add(s.d, t1), s.e, s.f, s.g)
  }

  function Rounds(s: Regs, block: seq<byte>, t: nat): Regs
    requires |block| == 64 && t <= 64
  {
    if t == 0 then s else Round(Rounds(s, block, t - 1), K()[t - 1], Schedule(block, t - 1))
  }

  function Plus(s: Regs, t: Regs): Regs
  {
    Regs(Add(s.a, t.a), Add(s.b, t.b), Add(s.c, t.c), Add(s.d, t.d),
         Add(s.e, t.e), Add(s.f, t.f), Add(s.g, t.g), Add(s.h, t.h))
  }

  /** Section 6.2.2: the next hash value. */
  function Compress(h: Regs, block: seq<byte>): Regs
    requires |block| == 64
  {
    Plus(h, Rounds(h, block, 64))
  }

  /** The hash value after all complete blocks of m, from H^(0). */
  function HashBlocks(m: seq<byte>): Regs
    requires |m| % 64 == 0
  {
    if m == [] then H0 else Compress(HashBlocks(m[..|m| - 64]), m[|m| - 64..])
  }

  function Zeros(n: nat): (z: seq<byte>)
    ensures |z| == n
  {
    seq(n, _ => 0)
  }

  /** Section 5.1.1: the smallest k with l + 1 + k = 448 mod 512, counted in octets. */
  function PadZeros(n: nat): (k: nat)
    ensures (n + 1 + k) % 64 == 56 && k < 64
  {
    (119 - n % 64) % 64
  }

  function Padded(m: seq<byte>): (p: seq<byte>)
    ensures |p| % 64 == 0
  {
    assert (|m| + 1 + PadZeros(|m|) + 8) % 64 == 0;
    m + [0x80] + Zeros(PadZeros(|m|)) + BigEndian(8 * |m|, 8)
  }

  /** Words in order, each in big-endian form. */
  function EncodeWords(ws: seq<word>): (d: seq<byte>)
    ensures |d| == 4 * |ws|
  {
    if ws == [] then [] else EncodeWords(ws[..|ws| - 1]) + Be32Enc(ws[|ws| - 1])
  }

  function Octets(h: Regs): (d: seq<byte>)
    ensures |d| == 32
  {
    EncodeWords([h.a, h.b, h.c, h.d, h.e, h.f, h.g, h.h])
  }

  function Sha256(m: seq<byte>): (d: seq<byte>)
    ensures |d| == 32
  {
    Octets(HashBlocks(Padded(m)))
  }

  /** Compressing one more block extends the blocks hashed so far. */
  lemma HashOneMore(m: seq<byte>, block: seq<byte>)
    requires |m| % 64 == 0 && |block| == 64
    ensures HashBlocks(m + block) == Compress(HashBlocks(m), block)
  {
    hide Compress;
    assert (m + block)[..|m + block| - 64] == m;
    assert (m + block)[|m + block| - 64..] == block;
  }
}
