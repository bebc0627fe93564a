/** Octets, 32-bit words and the byte-order conversions of sysendian.h. */
module Words {
  import Bits

  type byte = bv8
  type word = bv32

  const TWO32: int := 0x1_0000_0000

  /** A uint32_t that is only ever used as a number. */
  newtype uint32 = x: int | 0 <= x < 0x1_0000_0000

  /** Addition modulo 2^32, named so that proofs about data flow can hide it. */
  function Add(x: word, y: word): word { x + y }

  function Xor(x: word, y: word): word { x ^ y }

  lemma XorCancels(x: word, y: word)
    ensures Xor(Xor(x, y), y) == x
  {
    XorUndone(x, y, Xor(x, y));
    hide Xor;
  }

  lemma XorUndone(x: word, y: word, z: word)
    requires z == Xor(x, y)
    ensures Xor(z, y) == x
  {
  }

  function Be32Dec(p: seq<byte>): word
    requires |p| == 4
  {
    (p[3] as word) + (p[2] as word << 8) + (p[1] as word << 16) + (p[0] as word << 24)
  }

  function Be32Enc(x: word): (p: seq<byte>)
    ensures |p| == 4
  {
    [((x >> 24) & 0xff) as byte, ((x >> 16) & 0xff) as byte, ((x >> 8) & 0xff) as byte, (x & 0xff) as byte]
  }

  function Le32Dec(p: seq<byte>): word
    requires |p| == 4
  {
    (p[0] as word) + (p[1] as word << 8) + (p[2] as word << 16) + (p[3] as word << 24)
  }

  function Le32Enc(x: word): (p: seq<byte>)
    ensures |p| == 4
  {
    [(x & 0xff) as byte, ((x >> 8) & 0xff) as byte, ((x >> 16) & 0xff) as byte, ((x >> 24) & 0xff) as byte]
  }

  /** Both conversions are bijections between words and four octets. */
  lemma BigEndianRoundTrip(x: word, p: seq<byte>)
    requires |p| == 4
    ensures Be32Dec(Be32Enc(x)) == x
    ensures Be32Enc(Be32Dec(p)) == p
  {
    BigEndianOctets(p[0], p[1], p[2], p[3]);
    assert p == [p[0], p[1], p[2], p[3]];
  }

  lemma BigEndianOctets(a: byte, b: byte, c: byte, d: byte)
    ensures Be32Enc(Be32Dec([a, b, c, d])) == [a, b, c, d]
  {
    Be32DecIsOr(a, b, c, d);
    OctetsOfOr(a, b, c, d);
    hide Be32Dec;
  }

  lemma Be32DecIsOr(a: byte, b: byte, c: byte, d: byte)
    ensures Be32Dec([a, b, c, d]) == (d as word) | (c as word << 8) | (b as word << 16) | (a as word << 24)
  {
    OctetSumIsOr(a, b, c, d);
  }

  lemma OctetsOfOr(a: byte, b: byte, c: byte, d: byte)
    ensures var w := (d as word) | (c as word << 8) | (b as word << 16) | (a as word << 24);
            ((w >> 24) & 0xff) as byte == a && ((w >> 16) & 0xff) as byte == b
            && ((w >> 8) & 0xff) as byte == c && (w & 0xff) as byte == d
  {
  }

  lemma OctetSumIsOr(a: byte, b: byte, c: byte, d: byte)
    ensures (d as word) + (c as word << 8) + (b as word << 16) + (a as word << 24)
         == (d as word) | (c as word << 8) | (b as word << 16) | (a as word << 24)
  {
    assert (d as word) + (c as word << 8) == (d as word) | (c as word << 8);
    var l := (d as word) | (c as word << 8);
    assert l + (b as word << 16) == l | (b as word << 16);
    var m := l | (b as word << 16);
    assert m + (a as word << 24) == m | (a as word << 24);
  }

  lemma LittleEndianRoundTrip(x: word, p: seq<byte>)
    requires |p| == 4
    ensures Le32Dec(Le32Enc(x)) == x
    ensures Le32Enc(Le32Dec(p)) == p
  {
    LittleIsReversedBig(x, p);
    BigEndianRoundTrip(x, [p[3], p[2], p[1], p[0]]);
    var r := Le32Enc(Le32Dec(p));
    assert r[0] == p[0] && r[1] == p[1] && r[2] == p[2] && r[3] == p[3];
  }

  lemma LittleIsReversedBig(x: word, p: seq<byte>)
    requires |p| == 4
    ensures Le32Dec(p) == Be32Dec([p[3], p[2], p[1], p[0]])
    ensures var e := Be32Enc(x); Le32Enc(x) == [e[3], e[2], e[1], e[0]]
  {
  }

  /** The low octet of a number. */
  function Octet(n: nat): byte { (n % 256) as byte }

  /** The k-octet big-endian encoding of a number, modulo 256^k. */
  function BigEndian(n: nat, k: nat): (p: seq<byte>)
    ensures |p| == k
  {
    if k == 0 then [] else BigEndian(n / 256, k - 1) + [Octet(n)]
  }

  /** be32enc on a number rather than a word. */
  function Be32EncNat(n: nat): (p: seq<byte>)
    ensures |p| == 4
  {
    [Octet(n / 0x100_0000), Octet(n / 0x1_0000), Octet(n / 0x100), Octet(n)]
  }

  lemma {:induction false} Be32EncNatIsBigEndian(n: nat)
    ensures Be32EncNat(n) == BigEndian(n, 4)
  {
    assert n / 256 / 256 == n / 0x1_0000;
    assert n / 0x1_0000 / 256 == n / 0x100_0000;
    assert BigEndian(n / 0x1_0000, 2) == BigEndian(n / 0x100_0000, 1) + [Octet(n / 0x1_0000)];
    assert BigEndian(n / 0x100_0000, 1) == BigEndian(n / 0x1_0000_0000, 0) + [Octet(n / 0x100_0000)];
    assert BigEndian(n / 256, 3) == BigEndian(n / 0x1_0000, 2) + [Octet(n / 256)];
    assert BigEndian(n, 4) == BigEndian(n / 256, 3) + [Octet(n)];
  }

  /** Two 32-bit halves, most significant first, are the 64-bit encoding. */
  lemma {:induction false} SplitBigEndian(hi: nat, lo: nat)
    requires lo < 0x1_0000_0000
    ensures Be32EncNat(hi) + Be32EncNat(lo) == BigEndian(hi * 0x1_0000_0000 + lo, 8)
  {
    Be32EncNatIsBigEndian(hi);
    Be32EncNatIsBigEndian(lo);
    BigEndianAppend(hi, lo, 4);
  }

  lemma {:induction false} BigEndianAppend(hi: nat, lo: nat, k: nat)
    requires k <= 4 && lo < Pow256(k)
    ensures BigEndian(hi * Pow256(k) + lo, 4 + k) == BigEndian(hi, 4) + BigEndian(lo, k)
  {
    hide *;
    if k > 0 {
      var h := hi * Pow256(k - 1);
      PowStep(hi, k);
      PowBound(lo, k);
      BigEndianAppend(hi, lo / 256, k - 1);
      AppendOctet(h, lo);
      BigEndianSnoc(256 * h + lo, 3 + k);
      BigEndianSnoc(lo, k - 1);
      assert BigEndian(hi, 4) + (BigEndian(lo / 256, k - 1) + [Octet(lo)])
          == (BigEndian(hi, 4) + BigEndian(lo / 256, k - 1)) + [Octet(lo)];
    } else {
      AppendNothing(hi, lo);
    }
  }

  lemma AppendNothing(hi: nat, lo: nat)
    requires lo < Pow256(0)
    ensures BigEndian(hi * Pow256(0) + lo, 4) == BigEndian(hi, 4) + BigEndian(lo, 0)
  {
    hide Octet;
    assert BigEndian(hi, 4) + [] == BigEndian(hi, 4);
  }

  lemma PowBound(lo: nat, k: nat)
    requires k > 0 && lo < Pow256(k)
    ensures lo / 256 < Pow256(k - 1)
  {
  }

  lemma BigEndianSnoc(n: nat, k: nat)
    ensures BigEndian(n, k + 1) == BigEndian(n / 256, k) + [Octet(n)]
  {
    hide Octet;
  }

  lemma PowStep(hi: nat, k: nat)
    requires k > 0
    ensures hi * Pow256(k) == 256 * (hi * Pow256(k - 1))
  {
  }

  lemma AppendOctet(h: nat, lo: nat)
    ensures (256 * h + lo) / 256 == h + lo / 256 && Octet(256 * h + lo) == Octet(lo)
  {
  }

  /** The encoding in k octets ignores multiples of 256^k. */
  lemma {:induction false} BigEndianModulo(x: nat, q: nat, k: nat)
    ensures BigEndian(x + q * Pow256(k), k) == BigEndian(x, k)
  {
    hide *;
    if k > 0 {
      var m := q * Pow256(k - 1);
      PowStep(q, k);
      AppendOctet(m, x);
      BigEndianModulo(x / 256, q, k - 1);
      BigEndianSnoc(256 * m + x, k - 1);
      BigEndianSnoc(x, k - 1);
    } else {
      NoOctets(x);
      NoOctets(x + q * Pow256(k));
    }
  }

  lemma NoOctets(x: nat)
    ensures BigEndian(x, 0) == []
  {
  }

  function Pow256(k: nat): (p: nat)
    ensures p > 0
  {
    if k == 0 then 1 else 256 * Pow256(k - 1)
  }

  /** Octets read as a number, most significant first. */
  function Number(p: seq<byte>): nat
  {
    if p == [] then 0 else 256 * Number(p[..|p| - 1]) + p[|p| - 1] as nat
  }

  /** The big-endian encoding of n in k octets spells n modulo 256^k. */
  lemma {:induction false} BigEndianValue(n: nat, k: nat)
    ensures Number(BigEndian(n, k)) == n % Pow256(k)
  {
    if k == 0 {
      assert BigEndian(n, 0) == [] && n % 1 == 0;
    } else {
      hide *;
      BigEndianValue(n / 256, k - 1);
      BigEndianSnoc(n, k - 1);
      NumberSnoc(BigEndian(n / 256, k - 1), Octet(n));
      OctetValue(n);
      PowStep(1, k);
      ModByParts(n, Pow256(k - 1));
    }
  }

  /** Octets of one length that spell the same number are the same. */
  lemma {:induction false} NumberInjective(p: seq<byte>, q: seq<byte>)
    requires |p| == |q| && Number(p) == Number(q)
    ensures p == q
  {
    if p != [] {
      var n := |p| - 1;
      LastOctet(Number(p[..n]), Number(q[..n]), p[n], q[n]);
      NumberInjective(p[..n], q[..n]);
      assert p == p[..n] + [p[n]] && q == q[..n] + [q[n]];
    }
  }

  lemma LastOctet(x: nat, y: nat, a: byte, b: byte)
    requires 256 * x + a as nat == 256 * y + b as nat
    ensures x == y && a == b
  {
    SameOctet(a, b);
  }

  lemma SameOctet(a: byte, b: byte)
    ensures a as nat < 256 && b as nat < 256 && (a as nat == b as nat ==> a == b)
  {
  }

  lemma NumberSnoc(p: seq<byte>, b: byte)
    ensures Number(p + [b]) == 256 * Number(p) + b as nat
  {
    assert (p + [b])[..|p|] == p;
  }

  lemma OctetValue(n: nat)
    ensures Octet(n) as nat == n % 256
  {
    ByteValue(n % 256);
  }

  lemma ByteValue(v: nat)
    requires v < 256
    ensures (v as byte) as nat == v
  {
    var h := Nibble(v / 16);
    var l := Nibble(v % 16);
    var b := (h << 4) | l;
    TwoNibbles(b, h, l);
    ByteBack(b);
  }

  lemma Nibble(v: nat) returns (h: byte)
    requires v < 16
    ensures h as nat == v && h < 16
  {
    var all: seq<byte> := [0, 1, 2, 3, 4, 5, 6, 7, 8, 9, 10, 11, 12, 13, 14, 15];
    h := all[v];
  }

  lemma TwoNibbles(b: byte, h: byte, l: byte)
    requires h < 16 && l < 16 && b == (h << 4) | l
    ensures b as nat == 16 * (h as nat) + l as nat
  {
  }

  lemma ByteBack(b: byte)
    ensures (b as nat) as byte == b
  {
  }

  lemma ModByParts(n: nat, m: nat)
    requires m > 0
    ensures n % (256 * m) == 256 * (n / 256 % m) + n % 256
  {
    var h := n / 256;
    var q := h / m;
    assert h == q * m + h % m;
    var l := 256 * (h % m) + n % 256;
    assert n == q * (256 * m) + l && l < 256 * m;
    Bits.ModUnique(n, 256 * m, q, l);
  }

  /** What be32dec and le32dec read, as numbers. */
  lemma DecValue(p: seq<byte>)
    requires |p| == 4
    ensures Be32Dec(p) as nat
         == 0x100_0000 * (p[0] as nat) + 0x1_0000 * (p[1] as nat) + 0x100 * (p[2] as nat) + p[3] as nat
    ensures Le32Dec(p) as nat
         == p[0] as nat + 0x100 * (p[1] as nat) + 0x1_0000 * (p[2] as nat) + 0x100_0000 * (p[3] as nat)
  {
    hide *;
    assert p == [p[0], p[1], p[2], p[3]];
    LittleIsReversedBig(0, p);
    BigValue(p[0], p[1], p[2], p[3]);
    BigValue(p[3], p[2], p[1], p[0]);
  }

  lemma BigValue(a: byte, b: byte, c: byte, d: byte)
    ensures Be32Dec([a, b, c, d]) as nat
         == 0x100_0000 * (a as nat) + 0x1_0000 * (b as nat) + 0x100 * (c as nat) + d as nat
  {
    hide *;
    Be32DecIsOr(a, b, c, d);
    OrValue(a, b, c, d);
  }

  lemma OrValue(a: byte, b: byte, c: byte, d: byte)
    ensures ((d as word) | (c as word << 8) | (b as word << 16) | (a as word << 24)) as nat
         == 0x100_0000 * (a as nat) + 0x1_0000 * (b as nat) + 0x100 * (c as nat) + d as nat
  {
  }

  /** Exclusive or of two sequences of octets of one length. */
  function XorBytes(a: seq<byte>, b: seq<byte>): (c: seq<byte>)
    requires |a| == |b|
    ensures |c| == |a|
  {
    seq(|a|, i requires 0 <= i < |a| => a[i] ^ b[i])
  }
}
