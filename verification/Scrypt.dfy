/** The scrypt key derivation function: section 6 of RFC 7914, and libscrypt_scrypt. */
module Scrypt {
  import opened Words
  import opened Bits
  import opened Smix
  import opened Pbkdf2

  /** Lane i of 128r octets. */
  function Lane(b: seq<byte>, r: nat, i: nat): (x: seq<byte>)
    requires LaneEnd(r, i) <= |b|
    ensures |x| == 128 * r
  {
    b[LaneStart(r, i)..LaneEnd(r, i)]
  }

  function LaneStart(r: nat, i: nat): nat { i * (128 * r) }

  function LaneEnd(r: nat, i: nat): (e: nat)
    ensures e == LaneStart(r, i) + 128 * r
  {
    (i + 1) * (128 * r)
  }

  /** scryptROMix on octets. */
  function MixLane(x: seq<byte>, r: nat, n: nat): (y: seq<byte>)
    requires r >= 1 && n >= 1 && |x| == 128 * r
    ensures |y| == 128 * r
  {
    EncodeLe(RoMix(DecodeLe(x), r, n))
  }

  /** Step 2: the first k lanes, each mixed on its own. */
  function MixedLanes(b: seq<byte>, r: nat, n: nat, k: nat): (m: seq<byte>)
    requires r >= 1 && n >= 1 && LaneStart(r, k) <= |b|
    ensures |m| == LaneStart(r, k)
  {
    if k == 0 then
      []
    else
      MixedLanes(b, r, n, k - 1) + MixLane(Lane(b, r, k - 1), r, n)
  }

  /** scrypt(P, S, N, r, p, dkLen) */
  function Key(passwd: seq<byte>, salt: seq<byte>, n: nat, r: nat, p: nat, dkLen: nat): (dk: seq<byte>)
    requires r >= 1 && n >= 1
    ensures |dk| == dkLen
  {
    var b := Pbkdf2.Pbkdf2(passwd, salt, 1, LaneStart(r, p));
    Pbkdf2.Pbkdf2(passwd, MixedLanes(b, r, n, p), 1, dkLen)
  }

  /** Every lane of the result is the lane of the input at the same place, mixed. */
  lemma {:induction false} MixedLane(b: seq<byte>, r: nat, n: nat, k: nat, i: nat)
    requires r >= 1 && n >= 1 && LaneStart(r, k) <= |b| && i < k
    ensures LaneEnd(r, i) <= LaneStart(r, k)
    ensures Lane(MixedLanes(b, r, n, k), r, i) == MixLane(Lane(b, r, i), r, n)
  {
    hide *;
    LanesInOrder(r, i, k);
    LanesInOrder(r, k - 1, k);
    LaneDef(b, r, k - 1);
    MixedDef(b, r, n, k);
    if i < k - 1 {
      MixedLane(b, r, n, k - 1, i);
      LaneDef(MixedLanes(b, r, n, k - 1), r, i);
    }
    LaneDef(MixedLanes(b, r, n, k), r, i);
  }

  /** With one lane the three steps of scrypt are two derivations around one scryptROMix. */
  lemma KeyOfOneLane(passwd: seq<byte>, salt: seq<byte>, n: nat, r: nat, dkLen: nat)
    requires r >= 1 && n >= 1
    ensures Key(passwd, salt, n, r, 1, dkLen)
         == Pbkdf2.Pbkdf2(passwd, MixLane(Pbkdf2.Pbkdf2(passwd, salt, 1, 128 * r), r, n), 1, dkLen)
  {
    hide Pbkdf2.Pbkdf2, MixLane;
    var b := Pbkdf2.Pbkdf2(passwd, salt, 1, 128 * r);
    assert LaneStart(r, 0) == 0 && LaneEnd(r, 0) == LaneStart(r, 1) == 128 * r;
    assert MixedLanes(b, r, n, 0) == [];
    assert Lane(b, r, 0) == b;
    assert [] + MixLane(b, r, n) == MixLane(b, r, n);
  }

  lemma LaneDef(b: seq<byte>, r: nat, i: nat)
    requires LaneEnd(r, i) <= |b|
    ensures Lane(b, r, i) == b[LaneStart(r, i)..LaneEnd(r, i)]
  {
    hide LaneStart, LaneEnd;
  }

  lemma MixedDef(b: seq<byte>, r: nat, n: nat, k: nat)
    requires r >= 1 && n >= 1 && LaneStart(r, k) <= |b| && k >= 1
    ensures LaneStart(r, k - 1) <= |b| && LaneEnd(r, k - 1) <= |b|
    ensures MixedLanes(b, r, n, k) == MixedLanes(b, r, n, k - 1) + MixLane(Lane(b, r, k - 1), r, n)
  {
    LanesInOrder(r, k - 1, k);
    hide MixLane, Lane;
  }

  const SIZE_MAX: int := 0xFFFF_FFFF_FFFF_FFFF

  /** The parameters libscrypt_scrypt accepts. */
  ghost predicate Accepts(n: nat, r: nat, p: nat, dkLen: nat)
  {
    dkLen <= MAX_KEY && 1 <= r && 1 <= p && r * p < 0x4000_0000 && n >= 2 && IsPow2(n) && 128 * r * n <= SIZE_MAX
  }

  /** On each side of every limit. */
  lemma Limits()
    ensures Accepts(2, 1, 1, 0) && Accepts(2, 1, 0x3FFF_FFFF, 64) && !Accepts(2, 1, 0x4000_0000, 64)
    ensures Accepts(2, 1, 1, 0x1F_FFFF_FFE0) && !Accepts(2, 1, 1, 0x1F_FFFF_FFE1)
    ensures Accepts(0x100_0000_0000_0000, 1, 1, 64) && !Accepts(0x200_0000_0000_0000, 1, 1, 64)
    ensures !Accepts(1, 1, 1, 64) && !Accepts(3, 1, 1, 64) && !Accepts(2, 0, 1, 64) && !Accepts(2, 1, 0, 64)
  {
    SomePowers();
    hide IsPow2;
  }

  lemma SomePowers()
    ensures IsPow2(2) && IsPow2(0x100_0000_0000_0000) && !IsPow2(3)
  {
    assert Pow2(1) == 2;
    assert Pow2(7) == 128;
    Pow2Adds(7, 7); Pow2Adds(14, 14); Pow2Adds(28, 28);
    AndPredZero(3);
    assert And(3, 2) == 2;
  }

  /** The sizes that the source computes in 32 bits, lines 286 and 289: of B, and of XY. */
  function LanesSize32(r: nat, p: nat): nat { p * 128 % TWO32 * r % TWO32 }

  function ScratchSize32(r: nat): nat { (256 * r % TWO32 + 64) % TWO32 }

  predicate SizesFit(r: nat, p: nat)
  {
    128 * r * p < TWO32 && 256 * r + 64 < TWO32
  }

  /** Exactly when the buffers really have the sizes that the algorithm needs. */
  lemma SizesExact(r: nat, p: nat)
    ensures LanesSize32(r, p) == 128 * r * p && ScratchSize32(r) == 256 * r + 64 <==> SizesFit(r, p)
  {
    SizeModulo(p * 128, r);
    assert p * 128 * r == 128 * r * p;
  }

  lemma SizeModulo(x: nat, y: nat)
    ensures x % TWO32 * y % TWO32 == x * y % TWO32
  {
    var q := x / TWO32;
    assert x * y == x % TWO32 * y + TWO32 * (q * y);
    DropMultiple(x % TWO32 * y, q * y, TWO32);
  }

  /** The sanity checks let through parameters for which the size of B wraps around to nothing. */
  lemma SizesWrap()
    ensures Accepts(2, 4096, 16384, 64) && LanesSize32(4096, 16384) == 0 && !SizesFit(4096, 16384)
  {
    assert Pow2(1) == 2;
  }

  /** The 32-bit offset of lane i in B. */
  function Offset32(r: nat, i: nat): nat { i * 128 % TWO32 * r % TWO32 }

  /** Some lane ends outside of B, or the scratch space outside of XY. */
  ghost predicate Overruns(r: nat, p: nat)
  {
    || (exists i: nat :: i < p && Offset32(r, i) + 128 * r > LanesSize32(r, p))
    || 256 * r + 64 > ScratchSize32(r)
  }

  /** The buffers are overrun if and only if the sizes do not fit in 32 bits. */
  lemma OverrunsIff(r: nat, p: nat)
    requires r >= 1
    ensures Overruns(r, p) <==> !SizesFit(r, p)
  {
    hide Offset32, LanesSize32, ScratchSize32;
    if SizesFit(r, p) {
      SizesExact(r, p);
      forall i: nat | i < p
        ensures Offset32(r, i) + 128 * r <= LanesSize32(r, p)
      {
        NoWrap(r, p, i);
        LanesInOrder(r, i, p);
        LaneSize(r, p);
      }
    } else if 256 * r + 64 >= TWO32 {
      ScratchWraps(r);
    } else {
      var i := LastLane(r, p);
      assert Offset32(r, i) + 128 * r > LanesSize32(r, p);
    }
  }

  lemma ScratchWraps(r: nat)
    ensures 256 * r + 64 >= TWO32 ==> 256 * r + 64 > ScratchSize32(r)
  {
  }

  /** With too many lanes, the lane that reaches 2^32 leaves a buffer of fewer than 2^32 octets. */
  lemma LastLane(r: nat, p: nat) returns (i: nat)
    requires r >= 1 && 128 * r < TWO32 && 128 * r * p >= TWO32
    ensures i < p && Offset32(r, i) + 128 * r > LanesSize32(r, p)
  {
    hide *;
    i := (TWO32 - 1) / (128 * r);
    LaneAt(128 * r, p, i);
    OffsetExact(r, i);
    BelowWidth(r, p);
  }

  lemma OffsetExact(r: nat, i: nat)
    requires i * (128 * r) < TWO32
    ensures Offset32(r, i) == i * (128 * r)
  {
    SizeModulo(i * 128, r);
    assert i * 128 * r == i * (128 * r);
  }

  lemma BelowWidth(r: nat, p: nat)
    ensures LanesSize32(r, p) < TWO32
  {
  }

  lemma LaneAt(d: nat, p: nat, i: nat)
    requires d >= 1 && d * p >= TWO32 && i == (TWO32 - 1) / d
    ensures i < p && i * d < TWO32 <= i * d + d
  {
    QuotientBound(TWO32 - 1, d, i);
    QuotientBound(TWO32 - 1, d, i + 1);
    assert (i + 1) * d == i * d + d;
    if i >= p {
      Monotone(p, i, d);
    }
  }

  lemma Monotone(p: nat, i: nat, d: nat)
    requires p <= i
    ensures d * p <= i * d
  {
    MulMonotone(i, p, d);
  }

  /** The MCF limits on r and p are well inside that range. */
  lemma McfSizesFit(r: nat, p: nat)
    requires r <= 255 && p <= 255
    ensures SizesFit(r, p)
  {
    ProductBound(r, p);
    assert 128 * r * p == 128 * (r * p);
  }

  lemma ProductBound(r: nat, p: nat)
    requires r <= 255 && p <= 255
    ensures r * p <= 255 * 255
  {
    MulMonotone(255, r, p);
    MulMonotone(255, p, 255);
  }

  /** A buffer of lanes of which the first i have been mixed in place. */
  ghost predicate LanesDone(now: seq<byte>, b: seq<byte>, r: nat, n: nat, p: nat, i: nat)
    requires r >= 1 && n >= 1
  {
    && |now| == |b| == LaneStart(r, p) && i <= p && LaneStart(r, i) <= |b|
    && now[..LaneStart(r, i)] == MixedLanes(b, r, n, i)
    && now[LaneStart(r, i)..] == b[LaneStart(r, i)..]
  }

  lemma LanesInOrder(r: nat, i: nat, p: nat)
    requires i < p
    ensures LaneEnd(r, i) <= LaneStart(r, p)
    ensures LaneStart(r, i + 1) == LaneEnd(r, i)
  {
    MulStep(p, i, 128 * r);
  }

  lemma LaneStep(u: seq<byte>, v: seq<byte>, b: seq<byte>, r: nat, n: nat, p: nat, i: nat)
    requires r >= 1 && n >= 1 && i < p && LanesDone(u, b, r, n, p, i) && |v| == |u|
    requires LaneEnd(r, i) <= |u|
    requires v[LaneStart(r, i)..LaneEnd(r, i)] == MixLane(u[LaneStart(r, i)..LaneEnd(r, i)], r, n)
    requires v[..LaneStart(r, i)] == u[..LaneStart(r, i)] && v[LaneEnd(r, i)..] == u[LaneEnd(r, i)..]
    ensures LanesDone(v, b, r, n, p, i + 1)
  {
    hide MixLane;
    LanesInOrder(r, i, p);
    var s, e := LaneStart(r, i), LaneEnd(r, i);
    hide LaneStart, LaneEnd;
    TailSlices(u, b, s, e);
    assert v[..e] == v[..s] + v[s..e];
    assert v[e..] == u[e..] == b[e..];
  }

  lemma TailSlices(u: seq<byte>, b: seq<byte>, s: nat, e: nat)
    requires |u| == |b| && s <= e <= |u| && u[s..] == b[s..]
    ensures u[s..e] == b[s..e] && u[e..] == b[e..]
  {
    assert u[s..e] == u[s..][..e - s] && b[s..e] == b[s..][..e - s];
    assert u[e..] == u[s..][e - s..] && b[e..] == b[s..][e - s..];
  }

  /** The loop of step 2 over one shared buffer, reusing V and XY. */
  method MixAll(b: array<byte>, n: nat, ghost t: nat, r: nat, p: nat, v: array<word>, xy: array<word>)
    requires r >= 1 && 1 <= t <= 64 && n == Pow2(t) && SizesFit(r, p) && b.Length == LaneStart(r, p)
    requires v != xy && n * (32 * r) <= v.Length && 64 * r + 16 <= xy.Length
    modifies b, v, xy
    ensures b[..] == MixedLanes(old(b[..]), r, n, p)
  {
    hide MixedLanes, RoMix, EncodeLe, DecodeLe, Pow2, LanesDone, LaneStart, LaneEnd, SizesFit, Offset32;
    LanesStart(b[..], r, n, p);
    var i := 0;
    while i < p
      invariant 0 <= i <= p && LanesDone(b[..], old(b[..]), r, n, p, i)
    {
      LanesInOrder(r, i, p);
      NoWrap(r, p, i);
      var off := Offset32(r, i);
      ghost var u := b[..];
      SmixInPlace(b, off, r, n, t, v, xy);
      LaneStep(u, b[..], old(b[..]), r, n, p, i);
      i := i + 1;
    }
    LanesEnd(b[..], old(b[..]), r, n, p);
  }

  /** The offset of a lane, computed in 32 bits, does not wrap. */
  lemma NoWrap(r: nat, p: nat, i: nat)
    requires SizesFit(r, p) && i < p
    ensures Offset32(r, i) == LaneStart(r, i)
  {
    SizeModulo(i * 128, r);
    assert i * 128 * r == LaneStart(r, i);
    MulStep(p, i, 128 * r);
    assert p * (128 * r) == 128 * r * p;
  }

  lemma LanesStart(b: seq<byte>, r: nat, n: nat, p: nat)
    requires r >= 1 && n >= 1 && |b| == LaneStart(r, p)
    ensures LanesDone(b, b, r, n, p, 0)
  {
  }

  lemma LanesEnd(now: seq<byte>, b: seq<byte>, r: nat, n: nat, p: nat)
    requires r >= 1 && n >= 1 && LanesDone(now, b, r, n, p, p)
    ensures LaneStart(r, p) <= |b| && now == MixedLanes(b, r, n, p)
  {
  }

  /** The sanity checks of lines 247-271. */
  method Sane(n: nat, r: nat, p: nat, dkLen: nat) returns (ok: bool)
    requires n <= SIZE_MAX && r < TWO32 && p < TWO32
    ensures ok <==> Accepts(n, r, p, dkLen)
  {
    hide And, IsPow2;
    if n > 0 { AndPredZero(n); }
    if r >= 1 { TableFits(n, r); }
    if r >= 1 && p >= 1 { LanesFit(r, p); }
    if dkLen > MAX_KEY { return false; }
    if r * p >= 0x4000_0000 { return false; }
    if r == 0 || p == 0 { return false; }
    if n < 2 || And(n, n - 1) != 0 { return false; }
    if r > SIZE_MAX / 128 / p || n > SIZE_MAX / 128 / r { return false; }
    return true;
  }

  lemma QuotientBound(x: nat, d: nat, n: nat)
    requires d >= 1
    ensures n <= x / d <==> n * d <= x
  {
    assert x == x / d * d + x % d;
    if n <= x / d {
      MulMonotone(x / d, n, d);
    } else {
      MulStep(n, x / d, d);
    }
  }

  lemma TableFits(n: nat, r: nat)
    requires r >= 1
    ensures n > SIZE_MAX / 128 / r <==> 128 * r * n > SIZE_MAX
  {
    QuotientBound(SIZE_MAX / 128, r, n);
    QuotientBound(SIZE_MAX, 128, n * r);
    assert n * r * 128 == 128 * r * n;
  }

  lemma LanesFit(r: nat, p: nat)
    requires r >= 1 && p >= 1
    ensures r * p < 0x4000_0000 ==> r <= SIZE_MAX / 128 / p
  {
    QuotientBound(SIZE_MAX / 128, p, r);
  }

  /**
   * libscrypt_scrypt: 0 and the scrypt key for accepted parameters, -1 and buf untouched for all others. For
   * accepted parameters whose buffers would be overrun the model stops and says so instead.
   */
  method Derive(passwd: seq<byte>, salt: seq<byte>, n: nat, r: nat, p: nat, buf: array<byte>)
    returns (ret: int, overrun: bool)
    requires n <= SIZE_MAX && r < TWO32 && p < TWO32
    modifies buf
    ensures ret == 0 || ret == -1
    ensures ret == 0 <==> Accepts(n, r, p, buf.Length)
    ensures overrun <==> Accepts(n, r, p, buf.Length) && Overruns(r, p)
    ensures ret == 0 && !overrun ==> buf[..] == Key(passwd, salt, n, r, p, buf.Length)
    ensures ret == -1 || overrun ==> buf[..] == old(buf[..])
  {
    hide IsPow2, Overruns;
    var ok := Sane(n, r, p, buf.Length);
    if !ok {
      return -1, false;
    }
    OverrunsIff(r, p);
    if !SizesFit(r, p) {
      return 0, true;
    }
    ghost var t := Exponent(n);
    hide Accepts, Key;
    Run(passwd, salt, n, t, r, p, buf);
    return 0, false;
  }

  /** Lines 277-322: allocate, derive the lanes, mix them, derive the key. */
  method Run(passwd: seq<byte>, salt: seq<byte>, n: nat, ghost t: nat, r: nat, p: nat, buf: array<byte>)
    requires r >= 1 && 1 <= t <= 64 && n == Pow2(t) && SizesFit(r, p) && buf.Length <= MAX_KEY
    modifies buf
    ensures buf[..] == Key(passwd, salt, n, r, p, buf.Length)
  {
    hide *;
    SizesExact(r, p);
    LaneSize(r, p);
    KeyDef(passwd, salt, n, r, p, buf.Length);
    var b := new byte[LanesSize32(r, p)];
    var xy := new word[ScratchSize32(r) / 4];
    var v := new word[n * (32 * r)];
    Pbkdf2.Derive(passwd, salt, 1, b);
    MixAll(b, n, t, r, p, v, xy);
    Pbkdf2.Derive(passwd, b[..], 1, buf);
  }

  lemma KeyDef(passwd: seq<byte>, salt: seq<byte>, n: nat, r: nat, p: nat, dkLen: nat)
    requires r >= 1 && n >= 1
    ensures var b := Pbkdf2.Pbkdf2(passwd, salt, 1, LaneStart(r, p));
            Key(passwd, salt, n, r, p, dkLen) == Pbkdf2.Pbkdf2(passwd, MixedLanes(b, r, n, p), 1, dkLen)
  {
    hide Pbkdf2.Pbkdf2, MixedLanes, LaneStart;
  }

  lemma LaneSize(r: nat, p: nat)
    requires SizesFit(r, p)
    ensures LaneStart(r, p) == 128 * r * p <= MAX_KEY
  {
  }

  lemma Exponent(n: nat) returns (t: nat)
    requires IsPow2(n) && 2 <= n <= SIZE_MAX
    ensures 1 <= t <= 64 && n == Pow2(t)
  {
    t :| n == Pow2(t);
    if t > 64 {
      Pow2Of64();
      Pow2Monotone(64, t);
    }
  }
}
