/** scryptBlockMix: section 4 of RFC 7914, and blkcpy, blkxor and blockmix_salsa8 of crypto_scrypt-nosse.cpp. */
module BlockMix {
  import opened Words
  import opened Salsa

  function XorWords(x: seq<word>, y: seq<word>): (z: seq<word>)
    requires |x| == |y|
    ensures |z| == |x|
  {
    seq(|x|, i requires 0 <= i < |x| => Xor(x[i], y[i]))
  }

  lemma XorWordsAt(x: seq<word>, y: seq<word>, i: nat)
    requires |x| == |y| && i < |x|
    ensures XorWords(x, y)[i] == x[i] ^ y[i]
  {
  }

  /** The i-th 64-octet block. */
  function Block(b: seq<word>, i: nat): (x: seq<word>)
    requires 16 * i + 16 <= |b|
    ensures |x| == 16
  {
    b[16 * i..16 * i + 16]
  }

  /** Y[i] of section 4: X starts as the last block and runs through B[0], B[1], ... */
  function Y(b: seq<word>, r: nat, i: nat): (y: seq<word>)
    requires r >= 1 && |b| == 32 * r && i < 2 * r
    ensures |y| == 16
    decreases i, 1
  {
    Salsa20_8(XorWords(Before(b, r, i), Block(b, i)))
  }

  /** X before step i. */
  function Before(b: seq<word>, r: nat, i: nat): (x: seq<word>)
    requires r >= 1 && |b| == 32 * r && i <= 2 * r
    ensures |x| == 16
    decreases i, 0
  {
    if i == 0 then Block(b, 2 * r - 1) else Y(b, r, i - 1)
  }

  /** Which Y the j-th output block holds: Y_0, Y_2, ..., Y_{2r-2}, Y_1, Y_3, ..., Y_{2r-1}. */
  function Source(r: nat, j: nat): (i: nat)
    requires j < 2 * r
    ensures i < 2 * r
  {
    if j < r then 2 * j else 2 * (j - r) + 1
  }

  function BlockMix(b: seq<word>, r: nat): (out: seq<word>)
    requires r >= 1 && |b| == 32 * r
    ensures |out| == 32 * r
  {
    seq(32 * r, k requires 0 <= k < 32 * r => Y(b, r, Source(r, k / 16))[k % 16])
  }

  lemma WordOfBlock(out: seq<word>, n: nat, k: nat)
    requires |out| == 16 * n && k < |out|
    ensures k / 16 < n && out[k] == Block(out, k / 16)[k % 16]
  {
  }

  /** A block mix is determined block by block. */
  lemma FromBlocks(b: seq<word>, r: nat, out: seq<word>)
    requires r >= 1 && |b| == 32 * r && |out| == 32 * r
    requires forall q :: 0 <= q < r ==> Block(out, q) == Y(b, r, 2 * q)
    requires forall q :: 0 <= q < r ==> Block(out, r + q) == Y(b, r, 2 * q + 1)
    ensures out == BlockMix(b, r)
  {
    hide Y, Block;
    forall k | 0 <= k < 32 * r ensures out[k] == Y(b, r, Source(r, k / 16))[k % 16] {
      WordOfBlock(out, 2 * r, k);
      var j := k / 16;
      if j < r {
        assert Block(out, j) == Y(b, r, 2 * j);
      } else {
        assert Block(out, r + (j - r)) == Y(b, r, 2 * (j - r) + 1);
      }
    }
  }

  /**
   * Any blocks X_0, ..., X_{2r} that are made by the steps of the algorithm stand in the output, X_0 left out: those
   * after an odd number of steps in its first half, in order, and the others in its second.
   */
  lemma BlockMixTrace(b: seq<word>, r: nat, x: seq<seq<word>>, q: nat)
    requires r >= 1 && |b| == 32 * r && |x| == 2 * r + 1 && q < r
    requires forall i :: 0 <= i <= 2 * r ==> |x[i]| == 16
    requires x[0] == b[32 * r - 16..]
    requires forall i :: 0 <= i < 2 * r ==> x[i + 1] == Salsa20_8(XorWords(x[i], b[16 * i..16 * i + 16]))
    ensures BlockMix(b, r)[16 * q..16 * q + 16] == x[2 * q + 1]
    ensures BlockMix(b, r)[16 * (r + q)..16 * (r + q) + 16] == x[2 * q + 2]
  {
    hide Salsa20_8, XorWords, BlockMix;
    OutputBlock(b, r, q);
    OutputBlock(b, r, r + q);
    YTrace(b, r, x, 2 * q);
    YTrace(b, r, x, 2 * q + 1);
  }

  lemma {:induction false} YTrace(b: seq<word>, r: nat, x: seq<seq<word>>, i: nat)
    requires r >= 1 && |b| == 32 * r && |x| == 2 * r + 1 && i < 2 * r
    requires forall k :: 0 <= k <= 2 * r ==> |x[k]| == 16
    requires x[0] == b[32 * r - 16..]
    requires forall k :: 0 <= k < 2 * r ==> x[k + 1] == Salsa20_8(XorWords(x[k], b[16 * k..16 * k + 16]))
    ensures Y(b, r, i) == x[i + 1]
  {
    hide Salsa20_8, XorWords;
    assert x[i + 1] == Salsa20_8(XorWords(x[i], b[16 * i..16 * i + 16]));
    if i > 0 {
      YTrace(b, r, x, i - 1);
    } else {
      assert b[32 * r - 16..] == b[16 * (2 * r - 1)..16 * (2 * r - 1) + 16];
    }
  }

  /** Output block j is the Y that `Source` names. */
  lemma OutputBlock(b: seq<word>, r: nat, j: nat)
    requires r >= 1 && |b| == 32 * r && j < 2 * r
    ensures BlockMix(b, r)[16 * j..16 * j + 16] == Y(b, r, Source(r, j))
  {
    hide Y;
    forall k | 0 <= k < 16 ensures BlockMix(b, r)[16 * j + k] == Y(b, r, Source(r, j))[k] {
      assert (16 * j + k) / 16 == j && (16 * j + k) % 16 == k;
    }
  }

  /** Every source block is used for exactly one output block. */
  lemma SourceIsPermutation(r: nat, i: nat)
    requires i < 2 * r
    ensures exists j: nat :: j < 2 * r && Source(r, j) == i
    ensures forall j: nat, k: nat :: j < 2 * r && k < 2 * r && Source(r, j) == Source(r, k) ==> j == k
  {
    var j := if i % 2 == 0 then i / 2 else r + i / 2;
    assert Source(r, j) == i;
  }

  // Frames over buffers, seen as sequences.

  /** s and t agree outside [lo, lo + n). */
  ghost predicate SameOutside(s: seq<word>, t: seq<word>, lo: nat, n: nat)
  {
    |s| == |t| && forall k :: 0 <= k < |s| && !(lo <= k < lo + n) ==> s[k] == t[k]
  }

  /** [a, a + m) and [b, b + n) do not meet. */
  predicate Apart(a: nat, m: nat, b: nat, n: nat)
  {
    a + m <= b || b + n <= a
  }

  /** A range apart from the changed one keeps its contents. */
  lemma KeepsSlice(s: seq<word>, t: seq<word>, lo: nat, n: nat, a: nat, m: nat)
    requires SameOutside(s, t, lo, n) && Apart(a, m, lo, n) && a + m <= |s|
    ensures s[a..a + m] == t[a..a + m]
  {
  }

  lemma SliceOfSlice<T>(s: seq<T>, lo: nat, n: nat, a: nat, m: nat)
    requires lo + n <= |s| && a + m <= n
    ensures s[lo..lo + n][a..a + m] == s[lo + a..lo + a + m]
  {
    var x, y := s[lo..lo + n][a..a + m], s[lo + a..lo + a + m];
    forall k | 0 <= k < m ensures x[k] == y[k] {
      assert x[k] == s[lo..lo + n][a + k] == s[lo + a + k];
    }
  }

  /** blkcpy, in 32-bit words. */
  method BlkCpy(d: array<word>, dst: nat, s: array<word>, src: nat, n: nat)
    requires dst + n <= d.Length && src + n <= s.Length
    requires d != s || Apart(dst, n, src, n)
    modifies d
    ensures d[dst..dst + n] == old(s[src..src + n])
    ensures SameOutside(old(d[..]), d[..], dst, n)
  {
    for i := 0 to n
      invariant d[dst..dst + i] == old(s[src..src + i])
      invariant forall k :: 0 <= k < d.Length && !(dst <= k < dst + i) ==> d[k] == old(d[k])
    {
      d[dst + i] := s[src + i];
    }
  }

  /** blkxor, in 32-bit words. */
  method BlkXor(d: array<word>, dst: nat, s: array<word>, src: nat, n: nat)
    requires dst + n <= d.Length && src + n <= s.Length
    requires d != s || Apart(dst, n, src, n)
    modifies d
    ensures d[dst..dst + n] == XorWords(old(d[dst..dst + n]), old(s[src..src + n]))
    ensures SameOutside(old(d[..]), d[..], dst, n)
  {
    hide Xor;
    for i := 0 to n
      invariant forall k :: dst <= k < dst + i ==> d[k] == Xor(old(d[k]), old(s[src + k - dst]))
      invariant forall k :: 0 <= k < d.Length && !(dst <= k < dst + i) ==> d[k] == old(d[k])
    {
      d[dst + i] := Xor(d[dst + i], s[src + i]);
    }
  }

  /** X <-- H(X xor B_i) */
  method MixBlock(m: array<word>, bin: nat, z: nat, r: nat, i: nat, ghost b: seq<word>)
    requires r >= 1 && i < 2 * r && |b| == 32 * r
    requires bin + 32 * r <= m.Length && z + 16 <= m.Length && Apart(bin, 32 * r, z, 16)
    requires b == m[bin..bin + 32 * r] && m[z..z + 16] == Before(b, r, i)
    modifies m
    ensures m[z..z + 16] == Y(b, r, i)
    ensures SameOutside(old(m[..]), m[..], z, 16)
  {
    hide Salsa20_8, XorWords, Before, SameOutside;
    SliceOfSlice(m[..], bin, 32 * r, 16 * i, 16);
    BlkXor(m, z, m, bin + 16 * i, 16);
    ghost var mid := m[..];
    SalsaInPlace(m, z);
    FrameOfSlices(old(m[..]), mid, m[..], z);
  }

  lemma FrameOfSlices(s: seq<word>, t: seq<word>, u: seq<word>, z: nat)
    requires SameOutside(s, t, z, 16) && |t| == |u| && z + 16 <= |t|
    requires t[..z] == u[..z] && t[z + 16..] == u[z + 16..]
    ensures SameOutside(s, u, z, 16)
  {
    forall k | 0 <= k < |s| && !(z <= k < z + 16) ensures t[k] == u[k] {
      if k < z {
        assert t[..z][k] == u[..z][k];
      } else {
        assert t[z + 16..][k - z - 16] == u[z + 16..][k - z - 16];
      }
    }
  }

  /** The output blocks written after i steps, with the input untouched and X up to date. */
  ghost predicate Mixed(s: seq<word>, b: seq<word>, bin: nat, bout: nat, z: nat, r: nat, i: nat)
  {
    && r >= 1 && |b| == 32 * r && i <= 2 * r && i % 2 == 0
    && bin + 32 * r <= |s| && bout + 32 * r <= |s| && z + 16 <= |s|
    && s[bin..bin + 32 * r] == b && s[z..z + 16] == Before(b, r, i)
    && (forall q :: 0 <= q < i / 2 ==> Block(s[bout..bout + 32 * r], q) == Y(b, r, 2 * q))
    && (forall q :: 0 <= q < i / 2 ==> Block(s[bout..bout + 32 * r], r + q) == Y(b, r, 2 * q + 1))
  }

  lemma MixedInput(s: seq<word>, b: seq<word>, bin: nat, bout: nat, z: nat, r: nat, i: nat)
    requires Mixed(s, b, bin, bout, z, r, i)
    ensures r >= 1 && |b| == 32 * r && i <= 2 * r && i % 2 == 0
    ensures bin + 32 * r <= |s| && bout + 32 * r <= |s| && z + 16 <= |s|
    ensures s[bin..bin + 32 * r] == b && s[z..z + 16] == Before(b, r, i)
  {
    hide Before;
  }

  /** s and t agree outside three blocks. */
  ghost predicate SameElsewhere(s: seq<word>, t: seq<word>, d: nat, e: nat, z: nat)
  {
    |s| == |t| && forall k :: 0 <= k < |s| ==> s[k] == t[k] || d <= k < d + 16 || e <= k < e + 16 || z <= k < z + 16
  }

  /** Writing the blocks of steps i and i + 1 to their places in the output. */
  lemma MixedStep(s: seq<word>, t: seq<word>, b: seq<word>, bin: nat, bout: nat, z: nat, r: nat, i: nat)
    requires Mixed(s, b, bin, bout, z, r, i) && i < 2 * r && |t| == |s|
    requires Apart(bin, 32 * r, bout, 32 * r) && Apart(bin, 32 * r, z, 16) && Apart(bout, 32 * r, z, 16)
    requires t[z..z + 16] == Y(b, r, i + 1)
    requires t[bout + 8 * i..bout + 8 * i + 16] == Y(b, r, i)
    requires t[bout + 8 * i + 16 * r..bout + 8 * i + 16 * r + 16] == Y(b, r, i + 1)
    requires SameElsewhere(s, t, bout + 8 * i, bout + 8 * i + 16 * r, z)
    ensures Mixed(t, b, bin, bout, z, r, i + 2)
  {
    hide Y, SameElsewhere, Block;
    assert Before(b, r, i + 2) == Y(b, r, i + 1);
    hide Before;
    InputKept(s, t, bin, r, bout + 8 * i, bout + 8 * i + 16 * r, z);
    NewBlock(t, bout, r, i / 2);
    NewBlock(t, bout, r, r + i / 2);
    forall q | 0 <= q < i / 2
      ensures Block(t[bout..bout + 32 * r], q) == Y(b, r, 2 * q)
      ensures Block(t[bout..bout + 32 * r], r + q) == Y(b, r, 2 * q + 1)
    {
      OldBlocks(s, t, bout, r, i, q, z);
    }
  }

  lemma NewBlock(t: seq<word>, bout: nat, r: nat, q: nat)
    requires bout + 32 * r <= |t| && q < 2 * r
    ensures Block(t[bout..bout + 32 * r], q) == t[bout + 16 * q..bout + 16 * q + 16]
  {
    SliceOfSlice(t, bout, 32 * r, 16 * q, 16);
  }

  lemma OldBlocks(s: seq<word>, t: seq<word>, bout: nat, r: nat, i: nat, q: nat, z: nat)
    requires i % 2 == 0 && i < 2 * r && q < i / 2 && bout + 32 * r <= |s| && Apart(bout, 32 * r, z, 16)
    requires SameElsewhere(s, t, bout + 8 * i, bout + 8 * i + 16 * r, z)
    ensures Block(s[bout..bout + 32 * r], q) == Block(t[bout..bout + 32 * r], q)
    ensures Block(s[bout..bout + 32 * r], r + q) == Block(t[bout..bout + 32 * r], r + q)
  {
    SameBlock(s, t, bout, 32 * r, q);
    SameBlock(s, t, bout, 32 * r, r + q);
  }

  lemma InputKept(s: seq<word>, t: seq<word>, bin: nat, r: nat, d: nat, e: nat, z: nat)
    requires SameElsewhere(s, t, d, e, z) && bin + 32 * r <= |s|
    requires Apart(bin, 32 * r, d, 16) && Apart(bin, 32 * r, e, 16) && Apart(bin, 32 * r, z, 16)
    ensures s[bin..bin + 32 * r] == t[bin..bin + 32 * r]
  {
  }

  lemma SameBlock(s: seq<word>, t: seq<word>, lo: nat, n: nat, q: nat)
    requires |s| == |t| && lo + n <= |s| && 16 * q + 16 <= n
    requires forall k :: lo + 16 * q <= k < lo + 16 * q + 16 ==> s[k] == t[k]
    ensures Block(s[lo..lo + n], q) == Block(t[lo..lo + n], q)
  {
    SliceOfSlice(s, lo, n, 16 * q, 16);
    SliceOfSlice(t, lo, n, 16 * q, 16);
  }

  /** blockmix_salsa8: Bin, Bout and the scratch block X lie in one buffer without meeting. */
  method BlockMixInto(m: array<word>, bin: nat, bout: nat, z: nat, r: nat)
    requires r >= 1
    requires bin + 32 * r <= m.Length && bout + 32 * r <= m.Length && z + 16 <= m.Length
    requires Apart(bin, 32 * r, bout, 32 * r) && Apart(bin, 32 * r, z, 16) && Apart(bout, 32 * r, z, 16)
    modifies m
    ensures m[bout..bout + 32 * r] == BlockMix(old(m[bin..bin + 32 * r]), r)
    ensures OnlyOutput(old(m[..]), m[..], bout, z, r)
  {
    hide Mixed, OnlyOutput;
    ghost var b := m[bin..bin + 32 * r];
    BlkCpy(m, z, m, bin + (2 * r - 1) * 16, 16);
    MixedStart(old(m[..]), m[..], b, bin, bout, z, r);
    var i := 0;
    while i < 2 * r
      invariant 0 <= i <= 2 * r && i % 2 == 0
      invariant Mixed(m[..], b, bin, bout, z, r, i)
      invariant OnlyOutput(old(m[..]), m[..], bout, z, r)
    {
      MixPair(m, bin, bout, z, r, i, b, old(m[..]));
      i := i + 2;
    }
    MixedEnd(m[..], b, bin, bout, z, r);
  }

  /** Only the output and the scratch block differ. */
  ghost predicate OnlyOutput(s: seq<word>, t: seq<word>, bout: nat, z: nat, r: nat)
  {
    |s| == |t| && forall k :: 0 <= k < |s| && !(bout <= k < bout + 32 * r) && !(z <= k < z + 16) ==> s[k] == t[k]
  }

  /** The body of the loop: two steps, one block into each half of the output. */
  method MixPair(m: array<word>, bin: nat, bout: nat, z: nat, r: nat, i: nat,
                 ghost b: seq<word>, ghost start: seq<word>)
    requires Mixed(m[..], b, bin, bout, z, r, i) && i < 2 * r && OnlyOutput(start, m[..], bout, z, r)
    requires Apart(bin, 32 * r, bout, 32 * r) && Apart(bin, 32 * r, z, 16) && Apart(bout, 32 * r, z, 16)
    modifies m
    ensures Mixed(m[..], b, bin, bout, z, r, i + 2) && OnlyOutput(start, m[..], bout, z, r)
  {
    hide Y, Before, SameElsewhere, OnlyOutput;
    MixedInput(m[..], b, bin, bout, z, r, i);
    hide Mixed;
    ghost var s := m[..];
    var d, e := bout + 8 * i, bout + 8 * i + 16 * r;
    MixTwo(m, bin, d, e, z, r, i, b);
    MixedStep(s, m[..], b, bin, bout, z, r, i);
    StillOnlyOutput(start, s, m[..], d, e, bout, z, r);
  }

  /** Lines 139-149: Y_i goes to d and Y_{i+1} to e. */
  method MixTwo(m: array<word>, bin: nat, d: nat, e: nat, z: nat, r: nat, i: nat, ghost b: seq<word>)
    requires r >= 1 && i + 1 < 2 * r && |b| == 32 * r
    requires bin + 32 * r <= m.Length && d + 16 <= m.Length && e + 16 <= m.Length && z + 16 <= m.Length
    requires Apart(bin, 32 * r, z, 16) && Apart(bin, 32 * r, d, 16) && Apart(bin, 32 * r, e, 16)
    requires Apart(d, 16, z, 16) && Apart(e, 16, z, 16) && Apart(d, 16, e, 16)
    requires b == m[bin..bin + 32 * r] && m[z..z + 16] == Before(b, r, i)
    modifies m
    ensures m[z..z + 16] == Y(b, r, i + 1)
    ensures m[d..d + 16] == Y(b, r, i) && m[e..e + 16] == Y(b, r, i + 1)
    ensures SameElsewhere(old(m[..]), m[..], d, e, z)
  {
    hide Y, Before;
    MixOne(m, bin, d, z, r, i, b);
    ghost var mid := m[..];
    BeforeStep(b, r, i + 1);
    MixOne(m, bin, e, z, r, i + 1, b);
    assert mid[d..d + 16] == m[d..d + 16];
  }

  /** Lines 139-142: Y_i goes to d. */
  method MixOne(m: array<word>, bin: nat, d: nat, z: nat, r: nat, i: nat, ghost b: seq<word>)
    requires r >= 1 && i < 2 * r && |b| == 32 * r
    requires bin + 32 * r <= m.Length && d + 16 <= m.Length && z + 16 <= m.Length
    requires Apart(bin, 32 * r, z, 16) && Apart(bin, 32 * r, d, 16) && Apart(d, 16, z, 16)
    requires b == m[bin..bin + 32 * r] && m[z..z + 16] == Before(b, r, i)
    modifies m
    ensures m[bin..bin + 32 * r] == b && m[z..z + 16] == m[d..d + 16] == Y(b, r, i)
    ensures SameElsewhere(old(m[..]), m[..], d, d, z)
  {
    hide Y, Before, SameOutside, SameElsewhere;
    ghost var m0 := m[..];
    MixBlock(m, bin, z, r, i, b);
    ghost var m1 := m[..];
    BlkCpy(m, d, m, z, 16);
    KeepsSlice(m0, m1, z, 16, bin, 32 * r);
    KeepsSlice(m1, m[..], d, 16, bin, 32 * r);
    KeepsSlice(m1, m[..], d, 16, z, 16);
    TwoFrames(m0, m1, m[..], d, z);
  }

  lemma TwoFrames(m0: seq<word>, m1: seq<word>, m2: seq<word>, d: nat, z: nat)
    requires SameOutside(m0, m1, z, 16) && SameOutside(m1, m2, d, 16)
    ensures SameElsewhere(m0, m2, d, d, z)
  {
  }

  lemma StillOnlyOutput(start: seq<word>, s: seq<word>, t: seq<word>, d: nat, e: nat, bout: nat, z: nat, r: nat)
    requires OnlyOutput(start, s, bout, z, r) && SameElsewhere(s, t, d, e, z)
    requires bout <= d && d + 16 <= bout + 32 * r && bout <= e && e + 16 <= bout + 32 * r
    ensures OnlyOutput(start, t, bout, z, r)
  {
  }

  lemma BeforeStep(b: seq<word>, r: nat, i: nat)
    requires r >= 1 && |b| == 32 * r && 0 < i <= 2 * r
    ensures Before(b, r, i) == Y(b, r, i - 1)
  {
  }

  lemma MixedStart(s: seq<word>, t: seq<word>, b: seq<word>, bin: nat, bout: nat, z: nat, r: nat)
    requires r >= 1 && bin + 32 * r <= |s| && bout + 32 * r <= |s| && z + 16 <= |s|
    requires Apart(bin, 32 * r, z, 16) && Apart(bout, 32 * r, z, 16)
    requires b == s[bin..bin + 32 * r] && SameOutside(s, t, z, 16)
    requires t[z..z + 16] == s[bin + (2 * r - 1) * 16..bin + (2 * r - 1) * 16 + 16]
    ensures Mixed(t, b, bin, bout, z, r, 0) && OnlyOutput(s, t, bout, z, r)
  {
    KeepsSlice(s, t, z, 16, bin, 32 * r);
    SliceOfSlice(s, bin, 32 * r, (2 * r - 1) * 16, 16);
  }

  lemma MixedEnd(s: seq<word>, b: seq<word>, bin: nat, bout: nat, z: nat, r: nat)
    requires Mixed(s, b, bin, bout, z, r, 2 * r)
    ensures s[bout..bout + 32 * r] == BlockMix(b, r)
  {
    FromBlocks(b, r, s[bout..bout + 32 * r]);
  }
}
