/**
 * What the definitions of SHA-256 come to: where the constants come from, the shape of the padding, and the
 * digest of "abc", the first example of FIPS 180, eight words and eight rounds at a time.
 */
module Sha256Known {
  import opened Words
  import opened Sha256Spec

  // The constants, sections 4.2.2 and 5.3.3.

  /** The first 64 primes. */
  function Primes(): (p: seq<nat>)
    ensures |p| == 64
  {
    [2, 3, 5, 7, 11, 13, 17, 19, 23, 29, 31, 37, 41, 43, 47, 53] +
    [59, 61, 67, 71, 73, 79, 83, 89, 97, 101, 103, 107, 109, 113, 127, 131] +
    [137, 139, 149, 151, 157, 163, 167, 173, 179, 181, 191, 193, 197, 199, 211, 223] +
    [227, 229, 233, 239, 241, 251, 257, 263, 269, 271, 277, 281, 283, 293, 307, 311]
  }

  /** w is the integer part, and k the first 32 bits of the fraction, of the cube root of p. */
  predicate IsCubeRoot(p: nat, w: nat, k: nat)
  {
    var c := w * 0x1_0000_0000 + k;
    c * c * c <= p * 0x1_0000_0000_0000_0000_0000_0000 < (c + 1) * (c + 1) * (c + 1)
  }

  /** The same for the square root. */
  predicate IsSquareRoot(p: nat, w: nat, k: nat)
  {
    var c := w * 0x1_0000_0000 + k;
    c * c <= p * 0x1_0000_0000_0000_0000 < (c + 1) * (c + 1)
  }

  ghost predicate IsCubeRootFraction(p: nat, k: nat)
  {
    exists w: nat :: IsCubeRoot(p, w, k)
  }

  ghost predicate IsFounded(i: nat)
    requires i < 64
  {
    IsCubeRootFraction(Primes()[i], K()[i] as nat)
  }

  /** K_i is the first 32 bits of the fractional part of the cube root of the i-th prime. */
  lemma RoundConstants(i: nat)
    requires i < 64
    ensures IsCubeRootFraction(Primes()[i], K()[i] as nat)
  {
    hide *;
    CubeRoots(i);
    Founded(i);
  }

  lemma Founded(i: nat)
    requires i < 64 && IsFounded(i)
    ensures IsCubeRootFraction(Primes()[i], K()[i] as nat)
  {
    hide Primes, K;
  }

  lemma CubeRoots(i: nat)
    requires i < 64
    ensures IsFounded(i)
  {
    hide *;
    if i < 32 {
      if i < 16 { CubeRoots0(); } else { CubeRoots1(); }
    } else {
      if i < 48 { CubeRoots2(); } else { CubeRoots3(); }
    }
  }

  lemma Root(i: nat, p: nat, w: nat, k: word)
    requires i < 64 && Primes()[i] == p && K()[i] == k && IsCubeRoot(p, w, k as nat)
    ensures IsFounded(i)
  {
    hide IsCubeRoot, Primes, K;
  }

  lemma CubeRoots0()
    ensures forall i: nat :: 0 <= i < 16 ==> IsFounded(i)
  {
    hide IsFounded;
    Root(0, 2, 1, 0x428a2f98);
    Root(1, 3, 1, 0x71374491);
    Root(2, 5, 1, 0xb5c0fbcf);
    Root(3, 7, 1, 0xe9b5dba5);
    Root(4, 11, 2, 0x3956c25b);
    Root(5, 13, 2, 0x59f111f1);
    Root(6, 17, 2, 0x923f82a4);
    Root(7, 19, 2, 0xab1c5ed5);
    Root(8, 23, 2, 0xd807aa98);
    Root(9, 29, 3, 0x12835b01);
    Root(10, 31, 3, 0x243185be);
    Root(11, 37, 3, 0x550c7dc3);
    Root(12, 41, 3, 0x72be5d74);
    Root(13, 43, 3, 0x80deb1fe);
    Root(14, 47, 3, 0x9bdc06a7);
    Root(15, 53, 3, 0xc19bf174);
  }

  lemma CubeRoots1()
    ensures forall i: nat :: 16 <= i < 32 ==> IsFounded(i)
  {
    hide IsFounded;
    Root(16, 59, 3, 0xe49b69c1);
    Root(17, 61, 3, 0xefbe4786);
    Root(18, 67, 4, 0x0fc19dc6);
    Root(19, 71, 4, 0x240ca1cc);
    Root(20, 73, 4, 0x2de92c6f);
    Root(21, 79, 4, 0x4a7484aa);
    Root(22, 83, 4, 0x5cb0a9dc);
    Root(23, 89, 4, 0x76f988da);
    Root(24, 97, 4, 0x983e5152);
    Root(25, 101, 4, 0xa831c66d);
    Root(26, 103, 4, 0xb00327c8);
    Root(27, 107, 4, 0xbf597fc7);
    Root(28, 109, 4, 0xc6e00bf3);
    Root(29, 113, 4, 0xd5a79147);
    Root(30, 127, 5, 0x06ca6351);
    Root(31, 131, 5, 0x14292967);
  }

  lemma CubeRoots2()
    ensures forall i: nat :: 32 <= i < 48 ==> IsFounded(i)
  {
    hide IsFounded;
    Root(32, 137, 5, 0x27b70a85);
    Root(33, 139, 5, 0x2e1b2138);
    Root(34, 149, 5, 0x4d2c6dfc);
    Root(35, 151, 5, 0x53380d13);
    Root(36, 157, 5, 0x650a7354);
    Root(37, 163, 5, 0x766a0abb);
    Root(38, 167, 5, 0x81c2c92e);
    Root(39, 173, 5, 0x92722c85);
    Root(40, 179, 5, 0xa2bfe8a1);
    Root(41, 181, 5, 0xa81a664b);
    Root(42, 191, 5, 0xc24b8b70);
    Root(43, 193, 5, 0xc76c51a3);
    Root(44, 197, 5, 0xd192e819);
    Root(45, 199, 5, 0xd6990624);
    Root(46, 211, 5, 0xf40e3585);
    Root(47, 223, 6, 0x106aa070);
  }

  lemma CubeRoots3()
    ensures forall i: nat :: 48 <= i < 64 ==> IsFounded(i)
  {
    hide IsFounded;
    Root(48, 227, 6, 0x19a4c116);
    Root(49, 229, 6, 0x1e376c08);
    Root(50, 233, 6, 0x2748774c);
    Root(51, 239, 6, 0x34b0bcb5);
    Root(52, 241, 6, 0x391c0cb3);
    Root(53, 251, 6, 0x4ed8aa4a);
    Root(54, 257, 6, 0x5b9cca4f);
    Root(55, 263, 6, 0x682e6ff3);
    Root(56, 269, 6, 0x748f82ee);
    Root(57, 271, 6, 0x78a5636f);
    Root(58, 277, 6, 0x84c87814);
    Root(59, 281, 6, 0x8cc70208);
    Root(60, 283, 6, 0x90befffa);
    Root(61, 293, 6, 0xa4506ceb);
    Root(62, 307, 6, 0xbef9a3f7);
    Root(63, 311, 6, 0xc67178f2);
  }

  /** H^(0) is the first 32 bits of the fractional parts of the square roots of the first eight primes. */
  lemma InitialHash()
    ensures IsSquareRoot(Primes()[0], 1, H0.a as nat)
    ensures IsSquareRoot(Primes()[1], 1, H0.b as nat)
    ensures IsSquareRoot(Primes()[2], 2, H0.c as nat)
    ensures IsSquareRoot(Primes()[3], 2, H0.d as nat)
    ensures IsSquareRoot(Primes()[4], 3, H0.e as nat)
    ensures IsSquareRoot(Primes()[5], 3, H0.f as nat)
    ensures IsSquareRoot(Primes()[6], 4, H0.g as nat)
    ensures IsSquareRoot(Primes()[7], 4, H0.h as nat)
  {
    assert Primes()[0] == 2 && H0.a as nat == 0x6a09e667 && IsSquareRoot(2, 1, 0x6a09e667);
    assert Primes()[1] == 3 && H0.b as nat == 0xbb67ae85 && IsSquareRoot(3, 1, 0xbb67ae85);
    assert Primes()[2] == 5 && H0.c as nat == 0x3c6ef372 && IsSquareRoot(5, 2, 0x3c6ef372);
    assert Primes()[3] == 7 && H0.d as nat == 0xa54ff53a && IsSquareRoot(7, 2, 0xa54ff53a);
    assert Primes()[4] == 11 && H0.e as nat == 0x510e527f && IsSquareRoot(11, 3, 0x510e527f);
    assert Primes()[5] == 13 && H0.f as nat == 0x9b05688c && IsSquareRoot(13, 3, 0x9b05688c);
    assert Primes()[6] == 17 && H0.g as nat == 0x1f83d9ab && IsSquareRoot(17, 4, 0x1f83d9ab);
    assert Primes()[7] == 19 && H0.h as nat == 0x5be0cd19 && IsSquareRoot(19, 4, 0x5be0cd19);
  }

  // The padding, section 5.1.1.

  /**
   * The message, one octet 0x80, then as few zeros as leave room for the length in bits in eight octets at the
   * end of a block.
   */
  lemma PaddedShape(m: seq<byte>)
    ensures var p, n := Padded(m), |m|;
            && |p| % 64 == 0 && n + 9 <= |p| < n + 73
            && p[..n] == m && p[n] == 0x80 && (forall i :: n < i < |p| - 8 ==> p[i] == 0)
            && Number(p[|p| - 8..]) == 8 * n % 0x1_0000_0000_0000_0000
  {
    hide BigEndian, Number;
    LengthValue(m);
    var p := Padded(m);
    assert p[|p| - 8..] == BigEndian(8 * |m|, 8);
  }

  lemma LengthValue(m: seq<byte>)
    ensures Number(BigEndian(8 * |m|, 8)) == 8 * |m| % 0x1_0000_0000_0000_0000
  {
    hide BigEndian, Number;
    BigEndianValue(8 * |m|, 8);
    assert Pow256(2) == 0x1_0000;
    assert Pow256(4) == 0x1_0000_0000;
    assert Pow256(6) == 0x1_0000_0000_0000;
  }

  // The digest of "abc".

  /** The message schedule from word t on. */
  predicate WordsAre(block: seq<byte>, t: nat, w0: word, w1: word, w2: word, w3: word,
                     w4: word, w5: word, w6: word, w7: word)
    requires |block| == 64
  {
    && Schedule(block, t) == w0 && Schedule(block, t + 1) == w1
    && Schedule(block, t + 2) == w2 && Schedule(block, t + 3) == w3
    && Schedule(block, t + 4) == w4 && Schedule(block, t + 5) == w5
    && Schedule(block, t + 6) == w6 && Schedule(block, t + 7) == w7
  }

  predicate ConstantsAre(t: nat, k0: word, k1: word, k2: word, k3: word, k4: word, k5: word, k6: word, k7: word)
    requires t + 8 <= 64
  {
    && K()[t] == k0 && K()[t + 1] == k1 && K()[t + 2] == k2 && K()[t + 3] == k3
    && K()[t + 4] == k4 && K()[t + 5] == k5 && K()[t + 6] == k6 && K()[t + 7] == k7
  }

  predicate RegsAre(block: seq<byte>, t: nat, a: word, b: word, c: word, d: word,
                    e: word, f: word, g: word, h: word)
    requires |block| == 64 && t <= 64
  {
    Rounds(H0, block, t) == Regs(a, b, c, d, e, f, g, h)
  }

  lemma Constants0()
    ensures ConstantsAre(0, 0x428a2f98, 0x71374491, 0xb5c0fbcf, 0xe9b5dba5, 0x3956c25b, 0x59f111f1, 0x923f82a4,
                         0xab1c5ed5)
  {
  }

  lemma Constants1()
    ensures ConstantsAre(8, 0xd807aa98, 0x12835b01, 0x243185be, 0x550c7dc3, 0x72be5d74, 0x80deb1fe, 0x9bdc06a7,
                         0xc19bf174)
  {
  }

  lemma Constants2()
    ensures ConstantsAre(16, 0xe49b69c1, 0xefbe4786, 0x0fc19dc6, 0x240ca1cc, 0x2de92c6f, 0x4a7484aa, 0x5cb0a9dc,
                         0x76f988da)
  {
  }

  lemma Constants3()
    ensures ConstantsAre(24, 0x983e5152, 0xa831c66d, 0xb00327c8, 0xbf597fc7, 0xc6e00bf3, 0xd5a79147, 0x06ca6351,
                         0x14292967)
  {
  }

  lemma Constants4()
    ensures ConstantsAre(32, 0x27b70a85, 0x2e1b2138, 0x4d2c6dfc, 0x53380d13, 0x650a7354, 0x766a0abb, 0x81c2c92e,
                         0x92722c85)
  {
  }

  lemma Constants5()
    ensures ConstantsAre(40, 0xa2bfe8a1, 0xa81a664b, 0xc24b8b70, 0xc76c51a3, 0xd192e819, 0xd6990624, 0xf40e3585,
                         0x106aa070)
  {
  }

  lemma Constants6()
    ensures ConstantsAre(48, 0x19a4c116, 0x1e376c08, 0x2748774c, 0x34b0bcb5, 0x391c0cb3, 0x4ed8aa4a, 0x5b9cca4f,
                         0x682e6ff3)
  {
  }

  lemma Constants7()
    ensures ConstantsAre(56, 0x748f82ee, 0x78a5636f, 0x84c87814, 0x8cc70208, 0x90befffa, 0xa4506ceb, 0xbef9a3f7,
                         0xc67178f2)
  {
  }

  lemma ScheduleStep(block: seq<byte>, t: nat)
    requires |block| == 64 && t >= 16
    ensures Schedule(block, t)
         == Add(Add(Add(SmallSigma1(Schedule(block, t - 2)), Schedule(block, t - 7)),
                    SmallSigma0(Schedule(block, t - 15))), Schedule(block, t - 16))
  {
  }

  lemma RoundsStep(block: seq<byte>, t: nat)
    requires |block| == 64 && t < 64
    ensures Rounds(H0, block, t + 1) == Round(Rounds(H0, block, t), K()[t], Schedule(block, t))
  {
  }

  lemma Words2(block: seq<byte>)
    requires |block| == 64
    requires WordsAre(block, 0, 0x61626380, 0x00000000, 0x00000000, 0x00000000, 0x00000000, 0x00000000, 0x00000000,
                      0x00000000)
    requires WordsAre(block, 8, 0x00000000, 0x00000000, 0x00000000, 0x00000000, 0x00000000, 0x00000000, 0x00000000,
                      0x00000018)
    ensures WordsAre(block, 16, 0x61626380, 0x000f0000, 0x7da86405, 0x600003c6, 0x3e9d7b78, 0x0183fc00, 0x12dcbfdb,
                     0xe2e2c38e)
  {
    hide Schedule;
    ScheduleStep(block, 16);
    ScheduleStep(block, 17);
    ScheduleStep(block, 18);
    ScheduleStep(block, 19);
    ScheduleStep(block, 20);
    ScheduleStep(block, 21);
    ScheduleStep(block, 22);
    ScheduleStep(block, 23);
  }

  lemma Words3(block: seq<byte>)
    requires |block| == 64
    requires WordsAre(block, 8, 0x00000000, 0x00000000, 0x00000000, 0x00000000, 0x00000000, 0x00000000, 0x00000000,
                      0x00000018)
    requires WordsAre(block, 16, 0x61626380, 0x000f0000, 0x7da86405, 0x600003c6, 0x3e9d7b78, 0x0183fc00, 0x12dcbfdb,
                      0xe2e2c38e)
    ensures WordsAre(block, 24, 0xc8215c1a, 0xb73679a2, 0xe5bc3909, 0x32663c5b, 0x9d209d67, 0xec8726cb, 0x702138a4,
                     0xd3b7973b)
  {
    hide Schedule;
    ScheduleStep(block, 24);
    ScheduleStep(block, 25);
    ScheduleStep(block, 26);
    ScheduleStep(block, 27);
    ScheduleStep(block, 28);
    ScheduleStep(block, 29);
    ScheduleStep(block, 30);
    ScheduleStep(block, 31);
  }

  lemma Words4(block: seq<byte>)
    requires |block| == 64
    requires WordsAre(block, 16, 0x61626380, 0x000f0000, 0x7da86405, 0x600003c6, 0x3e9d7b78, 0x0183fc00, 0x12dcbfdb,
                      0xe2e2c38e)
    requires WordsAre(block, 24, 0xc8215c1a, 0xb73679a2, 0xe5bc3909, 0x32663c5b, 0x9d209d67, 0xec8726cb, 0x702138a4,
                      0xd3b7973b)
    ensures WordsAre(block, 32, 0x93f5997f, 0x3b68ba73, 0xaff4ffc1, 0xf10a5c62, 0x0a8b3996, 0x72af830a, 0x9409e33e,
                     0x24641522)
  {
    hide Schedule;
    ScheduleStep(block, 32);
    ScheduleStep(block, 33);
    ScheduleStep(block, 34);
    ScheduleStep(block, 35);
    ScheduleStep(block, 36);
    ScheduleStep(block, 37);
    ScheduleStep(block, 38);
    ScheduleStep(block, 39);
  }

  lemma Words5(block: seq<byte>)
    requires |block| == 64
    requires WordsAre(block, 24, 0xc8215c1a, 0xb73679a2, 0xe5bc3909, 0x32663c5b, 0x9d209d67, 0xec8726cb, 0x702138a4,
                      0xd3b7973b)
    requires WordsAre(block, 32, 0x93f5997f, 0x3b68ba73, 0xaff4ffc1, 0xf10a5c62, 0x0a8b3996, 0x72af830a, 0x9409e33e,
                      0x24641522)
    ensures WordsAre(block, 40, 0x9f47bf94, 0xf0a64f5a, 0x3e246a79, 0x27333ba3, 0x0c4763f2, 0x840abf27, 0x7a290d5d,
                     0x065c43da)
  {
    hide Schedule;
    ScheduleStep(block, 40);
    ScheduleStep(block, 41);
    ScheduleStep(block, 42);
    ScheduleStep(block, 43);
    ScheduleStep(block, 44);
    ScheduleStep(block, 45);
    ScheduleStep(block, 46);
    ScheduleStep(block, 47);
  }

  lemma Words6(block: seq<byte>)
    requires |block| == 64
    requires WordsAre(block, 32, 0x93f5997f, 0x3b68ba73, 0xaff4ffc1, 0xf10a5c62, 0x0a8b3996, 0x72af830a, 0x9409e33e,
                      0x24641522)
    requires WordsAre(block, 40, 0x9f47bf94, 0xf0a64f5a, 0x3e246a79, 0x27333ba3, 0x0c4763f2, 0x840abf27, 0x7a290d5d,
                      0x065c43da)
    ensures WordsAre(block, 48, 0xfb3e89cb, 0xcc7617db, 0xb9e66c34, 0xa9993667, 0x84badedd, 0xc21462bc, 0x1487472c,
                     0xb20f7a99)
  {
    hide Schedule;
    ScheduleStep(block, 48);
    ScheduleStep(block, 49);
    ScheduleStep(block, 50);
    ScheduleStep(block, 51);
    ScheduleStep(block, 52);
    ScheduleStep(block, 53);
    ScheduleStep(block, 54);
    ScheduleStep(block, 55);
  }

  lemma Words7(block: seq<byte>)
    requires |block| == 64
    requires WordsAre(block, 40, 0x9f47bf94, 0xf0a64f5a, 0x3e246a79, 0x27333ba3, 0x0c4763f2, 0x840abf27, 0x7a290d5d,
                      0x065c43da)
    requires WordsAre(block, 48, 0xfb3e89cb, 0xcc7617db, 0xb9e66c34, 0xa9993667, 0x84badedd, 0xc21462bc, 0x1487472c,
                      0xb20f7a99)
    ensures WordsAre(block, 56, 0xef57b9cd, 0xebe6b238, 0x9fe3095e, 0x78bc8d4b, 0xa43fcf15, 0x668b2ff8, 0xeeaba2cc,
                     0x12b1edeb)
  {
    hide Schedule;
    ScheduleStep(block, 56);
    ScheduleStep(block, 57);
    ScheduleStep(block, 58);
    ScheduleStep(block, 59);
    ScheduleStep(block, 60);
    ScheduleStep(block, 61);
    ScheduleStep(block, 62);
    ScheduleStep(block, 63);
  }

  lemma FirstRounds(block: seq<byte>)
    requires |block| == 64
    requires RegsAre(block, 0, 0x6a09e667, 0xbb67ae85, 0x3c6ef372, 0xa54ff53a, 0x510e527f, 0x9b05688c, 0x1f83d9ab,
                     0x5be0cd19)
    requires WordsAre(block, 0, 0x61626380, 0x00000000, 0x00000000, 0x00000000, 0x00000000, 0x00000000, 0x00000000,
                      0x00000000)
    requires ConstantsAre(0, 0x428a2f98, 0x71374491, 0xb5c0fbcf, 0xe9b5dba5, 0x3956c25b, 0x59f111f1, 0x923f82a4,
                          0xab1c5ed5)
    ensures RegsAre(block, 4, 0xd550f666, 0xc8c347a7, 0x5a6ad9ad, 0x5d6aebcd, 0x24e00850, 0xf92939eb, 0x78ce7989,
                    0xfa2a4622)
  {
    hide Schedule, Rounds, K;
    RoundsStep(block, 0);
    RoundsStep(block, 1);
    RoundsStep(block, 2);
    RoundsStep(block, 3);
  }

  lemma Rounds0(block: seq<byte>)
    requires |block| == 64
    requires RegsAre(block, 4, 0xd550f666, 0xc8c347a7, 0x5a6ad9ad, 0x5d6aebcd, 0x24e00850, 0xf92939eb, 0x78ce7989,
                     0xfa2a4622)
    requires WordsAre(block, 0, 0x61626380, 0x00000000, 0x00000000, 0x00000000, 0x00000000, 0x00000000, 0x00000000,
                      0x00000000)
    requires ConstantsAre(0, 0x428a2f98, 0x71374491, 0xb5c0fbcf, 0xe9b5dba5, 0x3956c25b, 0x59f111f1, 0x923f82a4,
                          0xab1c5ed5)
    ensures RegsAre(block, 8, 0x85a07b5f, 0xe5030380, 0x2b4209f5, 0x04409a6a, 0x0c657a79, 0x9b27a401, 0x714260ad,
                    0x43ada245)
  {
    hide Schedule, Rounds, K;
    RoundsStep(block, 4);
    RoundsStep(block, 5);
    RoundsStep(block, 6);
    RoundsStep(block, 7);
  }

  lemma Rounds1(block: seq<byte>)
    requires |block| == 64
    requires RegsAre(block, 8, 0x85a07b5f, 0xe5030380, 0x2b4209f5, 0x04409a6a, 0x0c657a79, 0x9b27a401, 0x714260ad,
                     0x43ada245)
    requires WordsAre(block, 8, 0x00000000, 0x00000000, 0x00000000, 0x00000000, 0x00000000, 0x00000000, 0x00000000,
                      0x00000018)
    requires ConstantsAre(8, 0xd807aa98, 0x12835b01, 0x243185be, 0x550c7dc3, 0x72be5d74, 0x80deb1fe, 0x9bdc06a7,
                          0xc19bf174)
    ensures RegsAre(block, 16, 0xb0fa238e, 0xc0645fde, 0xd932eb16, 0x87912990, 0x07590dcd, 0x0b92f20c, 0x745a48de,
                    0x1e578218)
  {
    hide Schedule, Rounds, K;
    RoundsStep(block, 8);
    RoundsStep(block, 9);
    RoundsStep(block, 10);
    RoundsStep(block, 11);
    RoundsStep(block, 12);
    RoundsStep(block, 13);
    RoundsStep(block, 14);
    RoundsStep(block, 15);
  }

  lemma Rounds2(block: seq<byte>)
    requires |block| == 64
    requires RegsAre(block, 16, 0xb0fa238e, 0xc0645fde, 0xd932eb16, 0x87912990, 0x07590dcd, 0x0b92f20c, 0x745a48de,
                     0x1e578218)
    requires WordsAre(block, 16, 0x61626380, 0x000f0000, 0x7da86405, 0x600003c6, 0x3e9d7b78, 0x0183fc00, 0x12dcbfdb,
                      0xe2e2c38e)
    requires ConstantsAre(16, 0xe49b69c1, 0xefbe4786, 0x0fc19dc6, 0x240ca1cc, 0x2de92c6f, 0x4a7484aa, 0x5cb0a9dc,
                          0x76f988da)
    ensures RegsAre(block, 24, 0xc5d53d8d, 0xa7a3623f, 0xc2606d6d, 0x9dc68b63, 0xaa47c347, 0x49f5114a, 0xe1257970,
                    0x8ada8930)
  {
    hide Schedule, Rounds, K;
    RoundsStep(block, 16);
    RoundsStep(block, 17);
    RoundsStep(block, 18);
    RoundsStep(block, 19);
    RoundsStep(block, 20);
    RoundsStep(block, 21);
    RoundsStep(block, 22);
    RoundsStep(block, 23);
  }

  lemma Rounds3(block: seq<byte>)
    requires |block| == 64
    requires RegsAre(block, 24, 0xc5d53d8d, 0xa7a3623f, 0xc2606d6d, 0x9dc68b63, 0xaa47c347, 0x49f5114a, 0xe1257970,
                     0x8ada8930)
    requires WordsAre(block, 24, 0xc8215c1a, 0xb73679a2, 0xe5bc3909, 0x32663c5b, 0x9d209d67, 0xec8726cb, 0x702138a4,
                      0xd3b7973b)
    requires ConstantsAre(24, 0x983e5152, 0xa831c66d, 0xb00327c8, 0xbf597fc7, 0xc6e00bf3, 0xd5a79147, 0x06ca6351,
                          0x14292967)
    ensures RegsAre(block, 32, 0x73b33bf5, 0xea992a22, 0xa0060b30, 0x363482c9, 0xba591112, 0x0109ab3a, 0xade79437,
                    0x6112a3b7)
  {
    hide Schedule, Rounds, K;
    RoundsStep(block, 24);
    RoundsStep(block, 25);
    RoundsStep(block, 26);
    RoundsStep(block, 27);
    RoundsStep(block, 28);
    RoundsStep(block, 29);
    RoundsStep(block, 30);
    RoundsStep(block, 31);
  }

  lemma Rounds4(block: seq<byte>)
    requires |block| == 64
    requires RegsAre(block, 32, 0x73b33bf5, 0xea992a22, 0xa0060b30, 0x363482c9, 0xba591112, 0x0109ab3a, 0xade79437,
                     0x6112a3b7)
    requires WordsAre(block, 32, 0x93f5997f, 0x3b68ba73, 0xaff4ffc1, 0xf10a5c62, 0x0a8b3996, 0x72af830a, 0x9409e33e,
                      0x24641522)
    requires ConstantsAre(32, 0x27b70a85, 0x2e1b2138, 0x4d2c6dfc, 0x53380d13, 0x650a7354, 0x766a0abb, 0x81c2c92e,
                          0x92722c85)
    ensures RegsAre(block, 40, 0x79ea687a, 0x6dc57a8a, 0x34df1604, 0x41a65cb1, 0x1efbc0a0, 0xf0781bc8, 0xa507a53d,
                    0x0772a26b)
  {
    hide Schedule, Rounds, K;
    RoundsStep(block, 32);
    RoundsStep(block, 33);
    RoundsStep(block, 34);
    RoundsStep(block, 35);
    RoundsStep(block, 36);
    RoundsStep(block, 37);
    RoundsStep(block, 38);
    RoundsStep(block, 39);
  }

  lemma Rounds5(block: seq<byte>)
    requires |block| == 64
    requires RegsAre(block, 40, 0x79ea687a, 0x6dc57a8a, 0x34df1604, 0x41a65cb1, 0x1efbc0a0, 0xf0781bc8, 0xa507a53d,
                     0x0772a26b)
    requires WordsAre(block, 40, 0x9f47bf94, 0xf0a64f5a, 0x3e246a79, 0x27333ba3, 0x0c4763f2, 0x840abf27, 0x7a290d5d,
                      0x065c43da)
    requires ConstantsAre(40, 0xa2bfe8a1, 0xa81a664b, 0xc24b8b70, 0xc76c51a3, 0xd192e819, 0xd6990624, 0xf40e3585,
                          0x106aa070)
    ensures RegsAre(block, 48, 0x4172328d, 0xa14c14b0, 0x72ab4b91, 0x26628815, 0xfecf0bc6, 0xd57b94a9, 0xb7755da1,
                    0xa80f11f0)
  {
    hide Schedule, Rounds, K;
    RoundsStep(block, 40);
    RoundsStep(block, 41);
    RoundsStep(block, 42);
    RoundsStep(block, 43);
    RoundsStep(block, 44);
    RoundsStep(block, 45);
    RoundsStep(block, 46);
    RoundsStep(block, 47);
  }

  lemma Rounds6(block: seq<byte>)
    requires |block| == 64
    requires RegsAre(block, 48, 0x4172328d, 0xa14c14b0, 0x72ab4b91, 0x26628815, 0xfecf0bc6, 0xd57b94a9, 0xb7755da1,
                     0xa80f11f0)
    requires WordsAre(block, 48, 0xfb3e89cb, 0xcc7617db, 0xb9e66c34, 0xa9993667, 0x84badedd, 0xc21462bc, 0x1487472c,
                      0xb20f7a99)
    requires ConstantsAre(48, 0x19a4c116, 0x1e376c08, 0x2748774c, 0x34b0bcb5, 0x391c0cb3, 0x4ed8aa4a, 0x5b9cca4f,
                          0x682e6ff3)
    ensures RegsAre(block, 56, 0x38cc9913, 0x3ec45cdb, 0xf5702fdb, 0x101fd28f, 0x54cb266b, 0xe50e1b4f, 0x9f4787c3,
                    0x529e7d00)
  {
    hide Schedule, Rounds, K;
    RoundsStep(block, 48);
    RoundsStep(block, 49);
    RoundsStep(block, 50);
    RoundsStep(block, 51);
    RoundsStep(block, 52);
    RoundsStep(block, 53);
    RoundsStep(block, 54);
    RoundsStep(block, 55);
  }

  lemma Rounds7(block: seq<byte>)
    requires |block| == 64
    requires RegsAre(block, 56, 0x38cc9913, 0x3ec45cdb, 0xf5702fdb, 0x101fd28f, 0x54cb266b, 0xe50e1b4f, 0x9f4787c3,
                     0x529e7d00)
    requires WordsAre(block, 56, 0xef57b9cd, 0xebe6b238, 0x9fe3095e, 0x78bc8d4b, 0xa43fcf15, 0x668b2ff8, 0xeeaba2cc,
                      0x12b1edeb)
    requires ConstantsAre(56, 0x748f82ee, 0x78a5636f, 0x84c87814, 0x8cc70208, 0x90befffa, 0xa4506ceb, 0xbef9a3f7,
                          0xc67178f2)
    ensures RegsAre(block, 64, 0x506e3058, 0xd39a2165, 0x04d24d6c, 0xb85e2ce9, 0x5ef50f24, 0xfb121210, 0x948d25b6,
                    0x961f4894)
  {
    hide Schedule, Rounds, K;
    RoundsStep(block, 56);
    RoundsStep(block, 57);
    RoundsStep(block, 58);
    RoundsStep(block, 59);
    RoundsStep(block, 60);
    RoundsStep(block, 61);
    RoundsStep(block, 62);
    RoundsStep(block, 63);
  }

  lemma FirstWord(block: seq<byte>, t: nat, a: byte, b: byte, c: byte, d: byte)
    requires |block| == 64 && t < 16 && block[4 * t..4 * t + 4] == [a, b, c, d]
    ensures Schedule(block, t) == Be32Dec([a, b, c, d])
  {
    hide Be32Dec;
  }

  lemma AbcLength()
    ensures BigEndian(24, 8) == [0, 0, 0, 0, 0, 0, 0, 24]
  {
    hide Octet;
    assert BigEndian(0, 1) == [Octet(0)];
    assert BigEndian(0, 2) == [Octet(0), Octet(0)];
    assert BigEndian(0, 4) == [Octet(0), Octet(0), Octet(0), Octet(0)];
    assert BigEndian(0, 6) == [Octet(0), Octet(0), Octet(0), Octet(0), Octet(0), Octet(0)];
    assert BigEndian(24, 8) == BigEndian(0, 7) + [Octet(24)];
    OctetsHere();
  }

  lemma OctetsHere()
    ensures Octet(0) == 0 && Octet(24) == 24
  {
  }

  lemma AbcBlock(m: seq<byte>, block: seq<byte>)
    requires m == [0x61, 0x62, 0x63] && block == Padded(m)
    ensures |block| == 64
    ensures block[0..4] == [0x61, 0x62, 0x63, 0x80] && block[60..64] == [0, 0, 0, 24]
    ensures forall t :: 1 <= t < 15 ==> block[4 * t..4 * t + 4] == [0, 0, 0, 0]
  {
    AbcLength();
    hide BigEndian;
    assert PadZeros(3) == 52;
    assert block == m + [0x80] + Zeros(52) + [0, 0, 0, 0, 0, 0, 0, 24];
  }

  lemma Words0(block: seq<byte>)
    requires |block| == 64
    requires block[0..4] == [0x61, 0x62, 0x63, 0x80]
    requires forall t :: 1 <= t < 15 ==> block[4 * t..4 * t + 4] == [0, 0, 0, 0]
    ensures WordsAre(block, 0, 0x61626380, 0x00000000, 0x00000000, 0x00000000, 0x00000000, 0x00000000, 0x00000000,
                     0x00000000)
  {
    hide Schedule;
    FirstWord(block, 0, 0x61, 0x62, 0x63, 0x80);
    FirstWord(block, 1, 0, 0, 0, 0);
    FirstWord(block, 2, 0, 0, 0, 0);
    FirstWord(block, 3, 0, 0, 0, 0);
    FirstWord(block, 4, 0, 0, 0, 0);
    FirstWord(block, 5, 0, 0, 0, 0);
    FirstWord(block, 6, 0, 0, 0, 0);
    FirstWord(block, 7, 0, 0, 0, 0);
  }

  lemma Words1(block: seq<byte>)
    requires |block| == 64
    requires block[60..64] == [0, 0, 0, 24]
    requires forall t :: 1 <= t < 15 ==> block[4 * t..4 * t + 4] == [0, 0, 0, 0]
    ensures WordsAre(block, 8, 0x00000000, 0x00000000, 0x00000000, 0x00000000, 0x00000000, 0x00000000, 0x00000000,
                     0x00000018)
  {
    hide Schedule;
    FirstWord(block, 8, 0, 0, 0, 0);
    FirstWord(block, 9, 0, 0, 0, 0);
    FirstWord(block, 10, 0, 0, 0, 0);
    FirstWord(block, 11, 0, 0, 0, 0);
    FirstWord(block, 12, 0, 0, 0, 0);
    FirstWord(block, 13, 0, 0, 0, 0);
    FirstWord(block, 14, 0, 0, 0, 0);
    FirstWord(block, 15, 0, 0, 0, 24);
  }

  lemma RoundsZero(block: seq<byte>)
    requires |block| == 64
    ensures RegsAre(block, 0, 0x6a09e667, 0xbb67ae85, 0x3c6ef372, 0xa54ff53a, 0x510e527f, 0x9b05688c, 0x1f83d9ab,
                    0x5be0cd19)
  {
  }

  lemma AbcRounds(m: seq<byte>, block: seq<byte>)
    requires m == [0x61, 0x62, 0x63] && block == Padded(m) && |block| == 64
    ensures RegsAre(block, 64, 0x506e3058, 0xd39a2165, 0x04d24d6c, 0xb85e2ce9, 0x5ef50f24, 0xfb121210, 0x948d25b6,
                    0x961f4894)
  {
    hide *;
    AbcBlock(m, block);
    RoundsZero(block);
    Words0(block); Constants0(); FirstRounds(block); Rounds0(block);
    Words1(block); Constants1(); Rounds1(block);
    Words2(block); Constants2(); Rounds2(block);
    Words3(block); Constants3(); Rounds3(block);
    Words4(block); Constants4(); Rounds4(block);
    Words5(block); Constants5(); Rounds5(block);
    Words6(block); Constants6(); Rounds6(block);
    Words7(block); Constants7(); Rounds7(block);
  }

  lemma AbcHash(block: seq<byte>)
    requires |block| == 64
    requires RegsAre(block, 64, 0x506e3058, 0xd39a2165, 0x04d24d6c, 0xb85e2ce9, 0x5ef50f24, 0xfb121210, 0x948d25b6,
                     0x961f4894)
    ensures HashBlocks(block) == Regs(0xba7816bf, 0x8f01cfea, 0x414140de, 0x5dae2223,
                                      0xb00361a3, 0x96177a9c, 0xb410ff61, 0xf20015ad)
  {
    hide Rounds;
    OneBlock(block);
  }

  lemma OneBlock(block: seq<byte>)
    requires |block| == 64
    ensures HashBlocks(block) == Plus(H0, Rounds(H0, block, 64))
  {
    hide Plus, Rounds;
    assert block[..0] == [] && block[0..] == block;
    assert HashBlocks([]) == H0;
  }

  /** The digest of "abc", which pins every constant, amount of rotation and offset above. */
  lemma AbcDigest(m: seq<byte>)
    requires m == [0x61, 0x62, 0x63]
    ensures Sha256(m)
         == [0xba, 0x78, 0x16, 0xbf] + [0x8f, 0x01, 0xcf, 0xea] + [0x41, 0x41, 0x40, 0xde] + [0x5d, 0xae, 0x22, 0x23]
          + [0xb0, 0x03, 0x61, 0xa3] + [0x96, 0x17, 0x7a, 0x9c] + [0xb4, 0x10, 0xff, 0x61] + [0xf2, 0x00, 0x15, 0xad]
  {
    hide *;
    var block := Padded(m);
    AbcBlock(m, block);
    AbcRounds(m, block);
    AbcHash(block);
    AbcOctets(HashBlocks(block));
    Sha256Def(m);
  }

  lemma Sha256Def(m: seq<byte>)
    ensures Sha256(m) == Octets(HashBlocks(Padded(m)))
  {
    hide Octets, HashBlocks, Padded;
  }

  /** The octets of a hash value: the eight words in order, each with its most significant octet first. */
  lemma OctetsInOrder(h: Regs)
    ensures Octets(h) == Be32Enc(h.a) + Be32Enc(h.b) + Be32Enc(h.c) + Be32Enc(h.d)
                       + Be32Enc(h.e) + Be32Enc(h.f) + Be32Enc(h.g) + Be32Enc(h.h)
  {
    hide *;
    OctetsDef(h);
    FourWords(h.a, h.b, h.c, h.d);
    FourWords(h.e, h.f, h.g, h.h);
    EncodeAppend([h.a, h.b, h.c, h.d], [h.e, h.f, h.g, h.h]);
    assert [h.a, h.b, h.c, h.d] + [h.e, h.f, h.g, h.h] == [h.a, h.b, h.c, h.d, h.e, h.f, h.g, h.h];
  }

  lemma FourWords(a: word, b: word, c: word, d: word)
    ensures EncodeWords([a, b, c, d]) == Be32Enc(a) + Be32Enc(b) + Be32Enc(c) + Be32Enc(d)
  {
    hide *;
    EncodeOneMore([], a);
    assert [] + [a] == [a];
    EncodeOneMore([a], b);
    assert [a] + [b] == [a, b];
    EncodeOneMore([a, b], c);
    assert [a, b] + [c] == [a, b, c];
    EncodeOneMore([a, b, c], d);
    assert [a, b, c] + [d] == [a, b, c, d];
    assert [] + Be32Enc(a) == Be32Enc(a);
  }

  lemma {:induction false} EncodeAppend(x: seq<word>, y: seq<word>)
    ensures EncodeWords(x + y) == EncodeWords(x) + EncodeWords(y)
  {
    hide *;
    if y == [] {
      EncodeOneMore([], 0);
      assert x + y == x && y == [];
      assert EncodeWords(x) + [] == EncodeWords(x);
    } else {
      var n := |y| - 1;
      EncodeAppend(x, y[..n]);
      EncodeOneMore(x + y[..n], y[n]);
      EncodeOneMore(y[..n], y[n]);
      assert x + y == (x + y[..n]) + [y[n]] && y == y[..n] + [y[n]];
      assert (EncodeWords(x) + EncodeWords(y[..n])) + Be32Enc(y[n])
          == EncodeWords(x) + (EncodeWords(y[..n]) + Be32Enc(y[n]));
    }
  }

  lemma OctetsDef(h: Regs)
    ensures Octets(h) == EncodeWords([h.a, h.b, h.c, h.d, h.e, h.f, h.g, h.h])
  {
    hide EncodeWords;
  }

  lemma EncodeOneMore(ws: seq<word>, w: word)
    ensures EncodeWords([]) == [] && EncodeWords(ws + [w]) == EncodeWords(ws) + Be32Enc(w)
  {
    hide Be32Enc;
    assert (ws + [w])[..|ws|] == ws;
  }

  lemma AbcOctets(h: Regs)
    requires h == Regs(0xba7816bf, 0x8f01cfea, 0x414140de, 0x5dae2223,
                       0xb00361a3, 0x96177a9c, 0xb410ff61, 0xf20015ad)
    ensures Octets(h)
         == [0xba, 0x78, 0x16, 0xbf] + [0x8f, 0x01, 0xcf, 0xea] + [0x41, 0x41, 0x40, 0xde] + [0x5d, 0xae, 0x22, 0x23]
          + [0xb0, 0x03, 0x61, 0xa3] + [0x96, 0x17, 0x7a, 0x9c] + [0xb4, 0x10, 0xff, 0x61] + [0xf2, 0x00, 0x15, 0xad]
  {
    hide Octets, EncodeWords;
    OctetsInOrder(h);
    assert Be32Enc(0xba7816bf) == [0xba, 0x78, 0x16, 0xbf];
    assert Be32Enc(0x8f01cfea) == [0x8f, 0x01, 0xcf, 0xea];
    assert Be32Enc(0x414140de) == [0x41, 0x41, 0x40, 0xde];
    assert Be32Enc(0x5dae2223) == [0x5d, 0xae, 0x22, 0x23];
    assert Be32Enc(0xb00361a3) == [0xb0, 0x03, 0x61, 0xa3];
    assert Be32Enc(0x96177a9c) == [0x96, 0x17, 0x7a, 0x9c];
    assert Be32Enc(0xb410ff61) == [0xb4, 0x10, 0xff, 0x61];
    assert Be32Enc(0xf20015ad) == [0xf2, 0x00, 0x15, 0xad];
  }
}
