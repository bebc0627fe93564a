/** scryptROMix: section 5 of RFC 7914, and integerify and smix of crypto_scrypt-nosse.cpp. */
module Smix {
  import opened Words
  import opened Bits
  import opened BlockMix

  /** A block of words read as one little-endian integer. */
  function LittleEndian(ws: seq<word>): nat
  {
    if ws == [] then 0 else ws[0] as nat + TWO32 * LittleEndian(ws[1..])
  }

  /** Integerify of section 5: the last 64-octet block as an integer. */
  function Integerify(x: seq<word>, r: nat): nat
    requires r >= 1 && |x| == 32 * r
  {
    LittleEndian(Block(x, 2 * r - 1))
  }

  /** V_i: scryptBlockMix applied i times. */
  function Power(b: seq<word>, r: nat, i: nat): (v: seq<word>)
    requires r >= 1 && |b| == 32 * r
    ensures |v| == 32 * r
  {
    if i == 0 then b else BlockMix.BlockMix(Power(b, r, i - 1), r)
  }

  /** X after i passes through steps 7 and 8, which look up V_j with j = Integerify(X) mod N. */
  function Mixed(b: seq<word>, r: nat, n: nat, i: nat): (x: seq<word>)
    requires r >= 1 && |b| == 32 * r && n >= 1
    ensures |x| == 32 * r
  {
    if i == 0 then Power(b, r, n) else MixStep(Mixed(b, r, n, i - 1), b, r, n)
  }

  function MixStep(x: seq<word>, b: seq<word>, r: nat, n: nat): (y: seq<word>)
    requires r >= 1 && |b| == |x| == 32 * r && n >= 1
    ensures |y| == 32 * r
  {
    BlockMix.BlockMix(XorWords(x, Power(b, r, Integerify(x, r) % n)), r)
  }

  function RoMix(b: seq<word>, r: nat, n: nat): (x: seq<word>)
    requires r >= 1 && |b| == 32 * r && n >= 1
    ensures |x| == 32 * r
  {
    Mixed(b, r, n, n)
  }

  /** What integerify returns for the first two words of the last block. */
  function Low64(lo: word, hi: word): nat { hi as nat * TWO32 + lo as nat }

  /** The low 64 bits, masked, index the table exactly as the whole integer modulo N does. */
  lemma MaskedIndex(x: seq<word>, t: nat)
    requires |x| == 16 && t <= 64
    ensures And(Low64(x[0], x[1]), Pow2(t) - 1) == LittleEndian(x) % Pow2(t)
  {
    assert TWO32 > 0;
    hide *;
    var low, rest := Low64(x[0], x[1]), LittleEndian(x[2..]);
    LowWords(x);
    MaskIsMod(low, t);
    Pow2Splits(t);
    Reduce(LittleEndian(x), low, Pow2(64), Pow2(t), Pow2(64 - t), rest);
  }

  lemma Reduce(l: nat, low: nat, m: nat, p: nat, q: nat, rest: nat)
    requires p > 0 && l == low + m * rest && m == p * q
    ensures l % p == low % p
  {
    MulAssociates(p, q, rest);
    DropMultiple(low, q * rest, p);
  }

  lemma LowWords(x: seq<word>)
    requires |x| == 16
    ensures LittleEndian(x) == Low64(x[0], x[1]) + Pow2(64) * LittleEndian(x[2..])
  {
    assert x[1..][1..] == x[2..];
    assert LittleEndian(x[1..]) == x[1] as nat + TWO32 * LittleEndian(x[2..]);
    Pow2Of64();
  }

  lemma Pow2Of64()
    ensures Pow2(64) == TWO32 * TWO32
  {
    assert Pow2(8) == 256;
    Pow2Adds(8, 8); Pow2Adds(16, 16); Pow2Adds(32, 32);
  }

  lemma {:induction false} Pow2Adds(s: nat, t: nat)
    ensures Pow2(s) * Pow2(t) == Pow2(s + t)
  {
    if s > 0 { Pow2Adds(s - 1, t); }
  }

  lemma Pow2Splits(t: nat)
    requires t <= 64
    ensures Pow2(t) * Pow2(64 - t) == Pow2(64)
  {
    Pow2Adds(t, 64 - t);
  }

  lemma MulAssociates(x: nat, y: nat, z: nat)
    ensures (x * y) * z == x * (y * z)
  {
  }

  lemma DropMultiple(x: nat, q: nat, d: nat)
    requires d > 0
    ensures (x + d * q) % d == x % d
  {
    assert x == x / d * d + x % d;
    assert x + d * q == (x / d + q) * d + x % d;
    ModUnique(x + d * q, d, x / d + q, x % d);
  }

  /** integerify(&m[off], r) & (N - 1) */
  method Index(m: array<word>, off: nat, r: nat, n: nat, ghost t: nat) returns (j: nat)
    requires r >= 1 && off + 32 * r <= m.Length && t <= 64 && n == Pow2(t)
    ensures j == Integerify(m[off..off + 32 * r], r) % n && j < n
  {
    var x := off + (2 * r - 1) * 16;
    SliceOfSlice(m[..], off, 32 * r, (2 * r - 1) * 16, 16);
    MaskedIndex(m[x..x + 16], t);
    hide And, Pow2, Low64;
    j := And(Low64(m[x], m[x + 1]), n - 1);
  }

  /** The first i rows of V hold V_0, ..., V_{i-1}. */
  ghost predicate Table(v: seq<word>, b: seq<word>, r: nat, i: nat)
    requires r >= 1 && |b| == 32 * r
  {
    forall m :: 0 <= m < i ==> Row(v, r, m) == Power(b, r, m)
  }

  function Row(v: seq<word>, r: nat, m: nat): seq<word>
  {
    if RowEnd(r, m) <= |v| then v[RowStart(r, m)..RowEnd(r, m)] else []
  }

  function RowStart(r: nat, m: nat): nat { m * (32 * r) }

  function RowEnd(r: nat, m: nat): (e: nat)
    ensures e == RowStart(r, m) + 32 * r
  {
    (m + 1) * (32 * r)
  }

  lemma RowsInOrder(r: nat, m: nat, n: nat)
    requires m < n
    ensures RowEnd(r, m) <= RowStart(r, n)
  {
    MulStep(n, m, 32 * r);
  }

  lemma TableGrows(u: seq<word>, v: seq<word>, b: seq<word>, r: nat, i: nat)
    requires r >= 1 && |b| == 32 * r && RowEnd(r, i) <= |v| && Table(u, b, r, i)
    requires SameOutside(u, v, RowStart(r, i), 32 * r)
    requires v[RowStart(r, i)..RowEnd(r, i)] == Power(b, r, i)
    ensures Table(v, b, r, i + 1)
  {
    hide Power, RowStart, RowEnd, SameOutside;
    forall m | 0 <= m < i ensures Row(v, r, m) == Power(b, r, m) {
      RowKept(u, v, r, i, m);
    }
  }

  lemma RowKept(u: seq<word>, v: seq<word>, r: nat, i: nat, m: nat)
    requires m < i && RowEnd(r, i) <= |v| && SameOutside(u, v, RowStart(r, i), 32 * r)
    ensures Row(v, r, m) == Row(u, r, m)
  {
    RowsInOrder(r, m, i);
    hide RowStart, RowEnd;
    KeepsSlice(u, v, RowStart(r, i), 32 * r, RowStart(r, m), 32 * r);
  }

  /** V has room for n rows. */
  ghost predicate Room(len: nat, r: nat, n: nat)
  {
    n * (32 * r) <= len
  }

  lemma RowFits(len: nat, r: nat, n: nat, i: nat)
    requires Room(len, r, n) && i < n
    ensures RowEnd(r, i) <= len
  {
    RowsInOrder(r, i, n);
  }

  /** V_i <-- X; X <-- H(X), from the half of XY at a to the half at c. */
  method FillStep(v: array<word>, xy: array<word>, r: nat, n: nat, i: nat, a: nat, c: nat, ghost b: seq<word>)
    requires r >= 1 && |b| == 32 * r && v != xy
    requires i < n && Room(v.Length, r, n) && 64 * r + 16 <= xy.Length
    requires (a == 0 && c == 32 * r) || (a == 32 * r && c == 0)
    requires xy[a..a + 32 * r] == Power(b, r, i) && Table(v[..], b, r, i)
    modifies v, xy
    ensures xy[c..c + 32 * r] == Power(b, r, i + 1) && Table(v[..], b, r, i + 1)
  {
    hide BlockMix.BlockMix, RowStart, RowEnd, Room;
    RowFits(v.Length, r, n, i);
    BlkCpy(v, RowStart(r, i), xy, a, 32 * r);
    TableGrows(old(v[..]), v[..], b, r, i);
    hide Table;
    BlockMixInto(xy, a, c, 64 * r, r);
  }

  /** j <-- Integerify(X) mod N; X <-- H(X xor V_j), from the half of XY at a to the half at c. */
  method LookupStep(v: array<word>, xy: array<word>, r: nat, n: nat, ghost t: nat, i: nat, a: nat, c: nat,
                    ghost b: seq<word>)
    requires r >= 1 && |b| == 32 * r && v != xy && t <= 64 && n == Pow2(t)
    requires Room(v.Length, r, n) && 64 * r + 16 <= xy.Length
    requires (a == 0 && c == 32 * r) || (a == 32 * r && c == 0)
    requires xy[a..a + 32 * r] == Mixed(b, r, n, i) && Table(v[..], b, r, n)
    modifies xy
    ensures xy[c..c + 32 * r] == Mixed(b, r, n, i + 1)
  {
    hide BlockMix.BlockMix, XorWords, Integerify, Power, Pow2;
    var j := Index(xy, a, r, n, t);
    RowFits(v.Length, r, n, j);
    hide RowStart, RowEnd, Room;
    assert Row(v[..], r, j) == Power(b, r, j);
    BlkXor(xy, a, v, RowStart(r, j), 32 * r);
    BlockMixInto(xy, a, c, 64 * r, r);
  }

  /** A sequence of octets as little-endian words, and back. */
  function DecodeLe(p: seq<byte>): (ws: seq<word>)
    requires |p| % 4 == 0
    ensures |ws| == |p| / 4
  {
    seq(|p| / 4, k requires 0 <= k < |p| / 4 => Le32Dec(p[4 * k..4 * k + 4]))
  }

  function EncodeLe(ws: seq<word>): (p: seq<byte>)
    ensures |p| == 4 * |ws|
  {
    seq(4 * |ws|, k requires 0 <= k < 4 * |ws| => Le32Enc(ws[k / 4])[k % 4])
  }

  // Which octets of a lane choose the row.

  /** The row that a lane, as octets, looks up in a table of 2^t rows. */
  function RowIndex(p: seq<byte>, r: nat, t: nat): nat
    requires r >= 1 && |p| == 128 * r
  {
    var ws := DecodeLe(p);
    assert |ws| == 32 * r;
    Integerify(ws, r) % Pow2(t)
  }

  function FourOctets(p: seq<byte>, o: nat): nat
    requires o + 4 <= |p|
  {
    p[o] as nat + 0x100 * (p[o + 1] as nat) + 0x1_0000 * (p[o + 2] as nat) + 0x100_0000 * (p[o + 3] as nat)
  }

  /** The eight octets from o on as a number, least significant first. */
  function EightOctets(p: seq<byte>, o: nat): nat
    requires o + 8 <= |p|
  {
    p[o] as nat + 0x100 * (p[o + 1] as nat) + 0x1_0000 * (p[o + 2] as nat) + 0x100_0000 * (p[o + 3] as nat)
    + 0x1_0000_0000 * (p[o + 4] as nat) + 0x100_0000_0000 * (p[o + 5] as nat)
    + 0x1_0000_0000_0000 * (p[o + 6] as nat) + 0x100_0000_0000_0000 * (p[o + 7] as nat)
  }

  /** The first eight of a lane's last 64 octets choose the row. */
  lemma IntegerifyOctets(p: seq<byte>, r: nat, t: nat)
    requires r >= 1 && |p| == 128 * r && t <= 64
    ensures RowIndex(p, r, t) == EightOctets(p, 128 * r - 64) % Pow2(t)
  {
    hide Integerify, DecodeLe, Pow2, EightOctets, Low64, LittleEndian, Block;
    var ws := DecodeLe(p);
    LastBlock(ws, r);
    LowMod(Block(ws, 2 * r - 1), t);
    LowOctets(p, 32 * r - 16);
  }

  lemma LowOctets(p: seq<byte>, k: nat)
    requires |p| % 4 == 0 && 4 * k + 8 <= |p|
    ensures Low64(DecodeLe(p)[k], DecodeLe(p)[k + 1]) == EightOctets(p, 4 * k)
  {
    hide *;
    WordAt(p, k);
    WordAt(p, k + 1);
    LowValue(DecodeLe(p)[k], DecodeLe(p)[k + 1]);
    EightSplit(p, 4 * k);
  }

  lemma EightSplit(p: seq<byte>, o: nat)
    requires o + 8 <= |p|
    ensures EightOctets(p, o) == 0x1_0000_0000 * FourOctets(p, o + 4) + FourOctets(p, o)
  {
  }

  lemma LastBlock(ws: seq<word>, r: nat)
    requires r >= 1 && |ws| == 32 * r
    ensures Integerify(ws, r) == LittleEndian(Block(ws, 2 * r - 1))
    ensures Block(ws, 2 * r - 1)[0] == ws[32 * r - 16] && Block(ws, 2 * r - 1)[1] == ws[32 * r - 15]
  {
  }

  lemma LowMod(x: seq<word>, t: nat)
    requires |x| == 16 && t <= 64
    ensures LittleEndian(x) % Pow2(t) == Low64(x[0], x[1]) % Pow2(t)
  {
    hide *;
    MaskedIndex(x, t);
    MaskIsMod(Low64(x[0], x[1]), t);
  }

  lemma LowValue(lo: word, hi: word)
    ensures Low64(lo, hi) == 0x1_0000_0000 * (hi as nat) + lo as nat
  {
  }

  lemma WordAt(p: seq<byte>, k: nat)
    requires |p| % 4 == 0 && 4 * k + 4 <= |p|
    ensures DecodeLe(p)[k] as nat == FourOctets(p, 4 * k)
  {
    hide Le32Dec;
    DecValue(p[4 * k..4 * k + 4]);
  }

  /** Lanes that agree in their last 64 octets look up the same row. */
  lemma SameLastBlockSameRow(p: seq<byte>, q: seq<byte>, r: nat, t: nat)
    requires r >= 1 && |p| == 128 * r && |q| == 128 * r && t <= 64
    requires forall k :: 128 * r - 64 <= k < 128 * r ==> p[k] == q[k]
    ensures RowIndex(p, r, t) == RowIndex(q, r, t)
  {
    hide RowIndex;
    IntegerifyOctets(p, r, t);
    IntegerifyOctets(q, r, t);
  }

  /**
   * Any blocks V_0, ..., V_N and X_0, ..., X_N that are made by the steps of the algorithm end in the result: each V
   * is the block mix of the one before, X_0 is V_N, and each next X mixes X xor the row that X points at.
   */
  lemma RoMixTrace(b: seq<word>, r: nat, n: nat, v: seq<seq<word>>, x: seq<seq<word>>)
    requires r >= 1 && |b| == 32 * r && n >= 1 && |v| == n + 1 && |x| == n + 1
    requires (forall i :: 0 <= i <= n ==> |v[i]| == 32 * r) && (forall i :: 0 <= i <= n ==> |x[i]| == 32 * r)
    requires v[0] == b && forall i :: 0 <= i < n ==> v[i + 1] == BlockMix.BlockMix(v[i], r)
    requires x[0] == v[n]
    requires forall i :: 0 <= i < n ==> x[i + 1] == BlockMix.BlockMix(XorWords(x[i], v[Integerify(x[i], r) % n]), r)
    ensures RoMix(b, r, n) == x[n]
  {
    hide BlockMix.BlockMix, XorWords, Integerify;
    PowerTrace(b, r, n, v, n);
    MixedTrace(b, r, n, v, x, n);
  }

  lemma {:induction false} PowerTrace(b: seq<word>, r: nat, n: nat, v: seq<seq<word>>, i: nat)
    requires r >= 1 && |b| == 32 * r && |v| == n + 1 && i <= n
    requires forall k :: 0 <= k <= n ==> |v[k]| == 32 * r
    requires v[0] == b && forall k :: 0 <= k < n ==> v[k + 1] == BlockMix.BlockMix(v[k], r)
    ensures Power(b, r, i) == v[i]
  {
    hide BlockMix.BlockMix;
    if i > 0 {
      PowerTrace(b, r, n, v, i - 1);
      assert v[i - 1 + 1] == BlockMix.BlockMix(v[i - 1], r);
    }
  }

  lemma {:induction false} MixedTrace(b: seq<word>, r: nat, n: nat, v: seq<seq<word>>, x: seq<seq<word>>, i: nat)
    requires r >= 1 && |b| == 32 * r && n >= 1 && |v| == n + 1 && |x| == n + 1 && i <= n
    requires (forall k :: 0 <= k <= n ==> |v[k]| == 32 * r) && (forall k :: 0 <= k <= n ==> |x[k]| == 32 * r)
    requires v[0] == b && forall k :: 0 <= k < n ==> v[k + 1] == BlockMix.BlockMix(v[k], r)
    requires x[0] == v[n]
    requires forall k :: 0 <= k < n ==> x[k + 1] == BlockMix.BlockMix(XorWords(x[k], v[Integerify(x[k], r) % n]), r)
    ensures Mixed(b, r, n, i) == x[i]
  {
    hide BlockMix.BlockMix, XorWords, Integerify, Power;
    if i == 0 {
      PowerTrace(b, r, n, v, n);
    } else {
      MixedTrace(b, r, n, v, x, i - 1);
      var j := Integerify(x[i - 1], r) % n;
      PowerTrace(b, r, n, v, j);
      assert x[i - 1 + 1] == BlockMix.BlockMix(XorWords(x[i - 1], v[j]), r);
    }
  }

  lemma DecodeEncode(ws: seq<word>)
    ensures DecodeLe(EncodeLe(ws)) == ws
  {
    hide Le32Dec, Le32Enc;
    forall k | 0 <= k < |ws| ensures DecodeLe(EncodeLe(ws))[k] == ws[k] {
      var e := EncodeLe(ws)[4 * k..4 * k + 4];
      assert e == Le32Enc(ws[k]);
      LittleEndianRoundTrip(ws[k], e);
    }
  }

  /** smix: the 128r octets of b at off become scryptROMix of them; V and XY are scratch. */
  method SmixInPlace(b: array<byte>, off: nat, r: nat, n: nat, ghost t: nat, v: array<word>, xy: array<word>)
    requires r >= 1 && off + 128 * r <= b.Length && 1 <= t <= 64 && n == Pow2(t)
    requires v != xy && Room(v.Length, r, n) && 64 * r + 16 <= xy.Length
    modifies b, v, xy
    ensures b[off..off + 128 * r] == EncodeLe(RoMix(DecodeLe(old(b[off..off + 128 * r])), r, n))
    ensures b[..off] == old(b[..off]) && b[off + 128 * r..] == old(b[off + 128 * r..])
  {
    hide *;
    ghost var x0 := DecodeLe(b[off..off + 128 * r]);
    Load(b, off, r, xy);
    FillTable(v, xy, r, n, t, x0);
    LookupAll(v, xy, r, n, t, x0);
    Store(xy, r, b, off);
  }

  /** Steps 2 to 5, unrolled by two: V_0, ..., V_{N-1} are tabulated and X becomes V_N. */
  method FillTable(v: array<word>, xy: array<word>, r: nat, n: nat, ghost t: nat, ghost x0: seq<word>)
    requires r >= 1 && |x0| == 32 * r && t >= 1 && n == Pow2(t)
    requires v != xy && Room(v.Length, r, n) && 64 * r + 16 <= xy.Length
    requires xy[0..32 * r] == x0
    modifies v, xy
    ensures xy[0..32 * r] == Power(x0, r, n) && Table(v[..], x0, r, n)
  {
    hide *;
    EvenPower(t);
    TableStart(v[..], x0, r);
    var i := 0;
    while i < n
      invariant 0 <= i <= n && i % 2 == 0
      invariant xy[0..32 * r] == Power(x0, r, i) && Table(v[..], x0, r, i)
    {
      FillStep(v, xy, r, n, i, 0, 32 * r, x0);
      FillStep(v, xy, r, n, i + 1, 32 * r, 0, x0);
      i := i + 2;
    }
  }

  /** Steps 6 to 9, unrolled by two. */
  method LookupAll(v: array<word>, xy: array<word>, r: nat, n: nat, ghost t: nat, ghost x0: seq<word>)
    requires r >= 1 && |x0| == 32 * r && 1 <= t <= 64 && n == Pow2(t)
    requires v != xy && Room(v.Length, r, n) && 64 * r + 16 <= xy.Length
    requires xy[0..32 * r] == Power(x0, r, n) && Table(v[..], x0, r, n)
    modifies xy
    ensures xy[0..32 * r] == RoMix(x0, r, n)
  {
    hide *;
    EvenPower(t);
    MixedStart(x0, r, n);
    var i := 0;
    while i < n
      invariant 0 <= i <= n && i % 2 == 0
      invariant xy[0..32 * r] == Mixed(x0, r, n, i)
    {
      LookupStep(v, xy, r, n, t, i, 0, 32 * r, x0);
      LookupStep(v, xy, r, n, t, i + 1, 32 * r, 0, x0);
      i := i + 2;
    }
  }

  lemma EvenPower(t: nat)
    requires t >= 1
    ensures Pow2(t) % 2 == 0
  {
    var p := Pow2(t - 1);
    assert Pow2(t) == 2 * p;
  }

  lemma TableStart(v: seq<word>, b: seq<word>, r: nat)
    requires r >= 1 && |b| == 32 * r
    ensures Table(v, b, r, 0) && Power(b, r, 0) == b
  {
  }

  lemma MixedStart(b: seq<word>, r: nat, n: nat)
    requires r >= 1 && |b| == 32 * r && n >= 1
    ensures Mixed(b, r, n, 0) == Power(b, r, n)
    ensures RoMix(b, r, n) == Mixed(b, r, n, n)
  {
  }

  /** Step 1: X <-- B */
  method Load(b: array<byte>, off: nat, r: nat, xy: array<word>)
    requires off + 128 * r <= b.Length && 32 * r <= xy.Length
    modifies xy
    ensures |b[off..off + 128 * r]| == 4 * (32 * r)
    ensures xy[0..32 * r] == DecodeLe(b[off..off + 128 * r])
  {
    hide Le32Dec;
    ghost var p := b[off..off + 128 * r];
    for k := 0 to 32 * r
      invariant forall j :: 0 <= j < k ==> xy[j] == Le32Dec(p[4 * j..4 * j + 4])
    {
      SliceOfSlice(b[..], off, 128 * r, 4 * k, 4);
      xy[k] := Le32Dec(b[off + 4 * k..off + 4 * k + 4]);
    }
  }

  /** Step 10: B' <-- X */
  method Store(xy: array<word>, r: nat, b: array<byte>, off: nat)
    requires off + 128 * r <= b.Length && 32 * r <= xy.Length
    modifies b
    ensures b[off..off + 128 * r] == EncodeLe(xy[0..32 * r])
    ensures b[..off] == old(b[..off]) && b[off + 128 * r..] == old(b[off + 128 * r..])
  {
    hide Le32Enc;
    for k := 0 to 32 * r
      invariant forall j :: 0 <= j < off || off + 4 * k <= j < b.Length ==> b[j] == old(b[j])
      invariant forall j :: 0 <= j < 4 * k ==> b[off + j] == Le32Enc(xy[j / 4])[j % 4]
    {
      StoreWord(b, off + 4 * k, Le32Enc(xy[k]));
    }
  }

  /** le32enc(&b[at], x), with e the encoding of x. */
  method StoreWord(b: array<byte>, at: nat, e: seq<byte>)
    requires at + 4 <= b.Length && |e| == 4
    modifies b
    ensures forall j :: at <= j < at + 4 ==> b[j] == e[j - at]
    ensures forall j :: 0 <= j < at || at + 4 <= j < b.Length ==> b[j] == old(b[j])
  {
    b[at], b[at + 1], b[at + 2], b[at + 3] := e[0], e[1], e[2], e[3];
  }
}
