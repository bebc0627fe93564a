/** SHA256_Transform of sha256.cpp: rotating registers instead of moving them. */
module Sha256Transform {
  import opened Words
  import opened Sha256Spec

  // The macros of sha256.cpp, lines 63 and 64.

  function ChCode(x: word, y: word, z: word): word { (x & (y ^ z)) ^ z }

  function MajCode(x: word, y: word, z: word): word { (x & (y | z)) | (y & z) }

  /** The rewritten macros compute the functions of section 4.1.2 of FIPS 180-4. */
  lemma MacrosAreStandard(x: word, y: word, z: word)
    ensures ChCode(x, y, z) == Ch(x, y, z)
    ensures MajCode(x, y, z) == Maj(x, y, z)
  {
    ChMacro(x, y, z);
    MajMacro(x, y, z);
  }

  lemma ChMacro(x: word, y: word, z: word)
    ensures (x & (y ^ z)) ^ z == (x & y) ^ (!x & z)
  {
  }

  lemma MajMacro(x: word, y: word, z: word)
    ensures (x & (y | z)) | (y & z) == (x & y) ^ (x & z) ^ (y & z)
  {
  }

  /** S[n % 8] */
  function At(s: seq<word>, n: nat): word
    requires |s| == 8
  {
    s[n % 8]
  }

  /** The registers a..h as round i of RNDr reads them. */
  function View(s: seq<word>, i: nat): Regs
    requires |s| == 8 && i <= 64
  {
    Regs(At(s, 64 - i), At(s, 65 - i), At(s, 66 - i), At(s, 67 - i),
         At(s, 68 - i), At(s, 69 - i), At(s, 70 - i), At(s, 71 - i))
  }

  function T0(e: word, f: word, g: word, h: word, wk: word): word
  {
    Add(Add(Add(h, BigSigma1(e)), ChCode(e, f, g)), wk)
  }

  function T1(a: word, b: word, c: word): word
  {
    Add(BigSigma0(a), MajCode(a, b, c))
  }

  /** RNDr(S, W, i, k): two registers change, none moves. */
  method Rndr(s: array<word>, i: nat, wk: word)
    requires s.Length == 8 && i < 64
    modifies s
    ensures s[..] == Rotated(old(s[..]), i, wk)
  {
    hide T0, T1, Add;
    var t0 := T0(At(s[..], 68 - i), At(s[..], 69 - i), At(s[..], 70 - i), At(s[..], 71 - i), wk);
    var t1 := T1(At(s[..], 64 - i), At(s[..], 65 - i), At(s[..], 66 - i));
    s[(67 - i) % 8] := Add(s[(67 - i) % 8], t0);
    s[(71 - i) % 8] := Add(t0, t1);
  }

  /** The register file after RNDr. */
  function Rotated(s: seq<word>, i: nat, wk: word): (r: seq<word>)
    requires |s| == 8 && i < 64
    ensures |r| == 8
  {
    var v := View(s, i);
    var t0, t1 := T0(v.e, v.f, v.g, v.h, wk), T1(v.a, v.b, v.c);
    s[(67 - i) % 8 := Add(v.d, t0)][(71 - i) % 8 := Add(t0, t1)]
  }

  /** Updating two of eight registers in place is one shifting round, seen one position later. */
  lemma RotatingRound(s: seq<word>, i: nat, k: word, w: word)
    requires |s| == 8 && i < 64
    ensures View(Rotated(s, i, Add(w, k)), i + 1) == Round(View(s, i), k, w)
  {
    hide T0, T1, Add, Round;
    var v := View(s, i);
    var t0, t1 := T0(v.e, v.f, v.g, v.h, Add(w, k)), T1(v.a, v.b, v.c);
    RotatingIndices(s, i, Add(v.d, t0), Add(t0, t1));
    RoundValues(v, k, w);
  }

  lemma RotatingIndices(s: seq<word>, i: nat, x: word, y: word)
    requires |s| == 8 && i < 64
    ensures var v := View(s, i);
            View(s[(67 - i) % 8 := x][(71 - i) % 8 := y], i + 1) == Regs(y, v.a, v.b, v.c, x, v.e, v.f, v.g)
  {
    hide At;
    var r := s[(67 - i) % 8 := x][(71 - i) % 8 := y];
    TwoUpdates(s, 67 - i, x, y);
    WrapsAround(r, 63 - i);
    WrapsAround(r, 64 - i); WrapsAround(r, 65 - i); WrapsAround(r, 66 - i);
    WrapsAround(s, 64 - i); WrapsAround(s, 65 - i); WrapsAround(s, 66 - i);
  }

  lemma TwoUpdates(s: seq<word>, d: nat, x: word, y: word)
    requires |s| == 8
    ensures var r := s[d % 8 := x][(d + 4) % 8 := y];
            && At(r, d) == x && At(r, d + 4) == y
            && At(r, d + 1) == At(s, d + 1) && At(r, d + 2) == At(s, d + 2) && At(r, d + 3) == At(s, d + 3)
            && At(r, d + 5) == At(s, d + 5) && At(r, d + 6) == At(s, d + 6) && At(r, d + 7) == At(s, d + 7)
  {
  }

  lemma WrapsAround(s: seq<word>, n: nat)
    requires |s| == 8
    ensures At(s, n) == At(s, n + 8)
  {
  }

  lemma RoundValues(v: Regs, k: word, w: word)
    ensures var t0, t1 := T0(v.e, v.f, v.g, v.h, Add(w, k)), T1(v.a, v.b, v.c);
            Round(v, k, w) == Regs(Add(t0, t1), v.a, v.b, v.c, Add(v.d, t0), v.e, v.f, v.g)
  {
    MacrosAreStandard(v.e, v.f, v.g);
    MacrosAreStandard(v.a, v.b, v.c);
    AddCommutes(k, w);
    hide BigSigma0, BigSigma1, Ch, Maj, ChCode, MajCode, Add;
  }

  lemma AddCommutes(x: word, y: word)
    ensures Add(x, y) == Add(y, x)
  {
  }

  /** S after i rounds, seen through View, holds the working variables of FIPS 180-4 after i rounds. */
  ghost predicate Rotates(s: seq<word>, h: Regs, block: seq<byte>, i: nat)
    requires |block| == 64 && |s| == 8 && i <= 64
  {
    View(s, i) == Rounds(h, block, i)
  }

  lemma RotatesStep(s: seq<word>, h: Regs, block: seq<byte>, i: nat)
    requires |block| == 64 && |s| == 8 && i < 64
    requires Rotates(s, h, block, i)
    ensures Rotates(Rotated(s, i, Add(Schedule(block, i), K()[i])), h, block, i + 1)
  {
    hide Round, Rotated, View, Schedule, K;
    RotatingRound(s, i, K()[i], Schedule(block, i));
  }

  /** The eight words of a state array as a hash value. */
  function RegsOf(s: seq<word>): Regs
    requires |s| == 8
  {
    Regs(s[0], s[1], s[2], s[3], s[4], s[5], s[6], s[7])
  }

  lemma Realigned(s: seq<word>)
    requires |s| == 8
    ensures View(s, 0) == RegsOf(s) && View(s, 64) == RegsOf(s)
  {
  }

  /** be32dec_vect, then lines 101-102: the message schedule. */
  method Expand(block: seq<byte>) returns (w: array<word>)
    requires |block| == 64
    ensures fresh(w) && w.Length == 64
    ensures forall t :: 0 <= t < 64 ==> w[t] == Schedule(block, t)
  {
    hide Be32Dec, SmallSigma0, SmallSigma1, Add;
    w := new word[64];
    for i := 0 to 16
      invariant forall t :: 0 <= t < i ==> w[t] == Schedule(block, t)
    {
      w[i] := Be32Dec(block[4 * i..4 * i + 4]);
    }
    for i := 16 to 64
      invariant forall t :: 0 <= t < i ==> w[t] == Schedule(block, t)
    {
      w[i] := Add(Add(Add(SmallSigma1(w[i - 2]), w[i - 7]), SmallSigma0(w[i - 15])), w[i - 16]);
    }
  }

  /** SHA256_Transform computes the next hash value of FIPS 180-4, in place. */
  method Transform(state: array<word>, block: seq<byte>)
    requires state.Length == 8 && |block| == 64
    modifies state
    ensures RegsOf(state[..]) == Compress(old(RegsOf(state[..])), block)
  {
    hide *;
    CompressDef(RegsOf(state[..]), block);
    ghost var h := RegsOf(state[..]);
    var w := Expand(block);
    var s := new word[8];
    CopyState(state, s);
    RotatesInit(s[..], block);
    Mix(s, w, block, h);
    RotatesEnd(s[..], h, block);
    AddState(state, s);
  }

  lemma CompressDef(h: Regs, block: seq<byte>)
    requires |block| == 64
    ensures Compress(h, block) == Plus(h, Rounds(h, block, 64))
  {
  }

  /** Lines 174-175. */
  method AddState(state: array<word>, s: array<word>)
    requires state.Length == 8 && s.Length == 8 && s != state
    modifies state
    ensures RegsOf(state[..]) == Plus(old(RegsOf(state[..])), RegsOf(s[..]))
  {
    hide Add;
    for i := 0 to 8
      invariant forall j :: 0 <= j < i ==> state[j] == Add(old(state[j]), s[j])
      invariant forall j :: i <= j < 8 ==> state[j] == old(state[j])
    {
      state[i] := Add(state[i], s[i]);
    }
  }

  /** Lines 108-171: the 64 rounds. */
  method Mix(s: array<word>, w: array<word>, ghost block: seq<byte>, ghost h: Regs)
    requires s.Length == 8 && w.Length == 64 && s != w && |block| == 64
    requires forall t :: 0 <= t < 64 ==> w[t] == Schedule(block, t)
    requires Rotates(s[..], h, block, 0)
    modifies s
    ensures Rotates(s[..], h, block, 64)
  {
    hide Schedule, K, Rotated, Rotates, Add;
    for i := 0 to 64
      invariant Rotates(s[..], h, block, i)
    {
      RotatesStep(s[..], h, block, i);
      Rndr(s, i, Add(w[i], K()[i]));
    }
  }

  method CopyState(src: array<word>, dst: array<word>)
    requires src.Length == dst.Length == 8 && src != dst
    modifies dst
    ensures dst[..] == src[..]
  {
    for i := 0 to 8
      invariant dst[..i] == src[..i]
    {
      dst[i] := src[i];
    }
  }

  lemma RotatesInit(s: seq<word>, block: seq<byte>)
    requires |block| == 64 && |s| == 8
    ensures Rotates(s, RegsOf(s), block, 0)
  {
    Realigned(s);
    hide View, RegsOf;
  }

  lemma RotatesEnd(s: seq<word>, h: Regs, block: seq<byte>)
    requires |block| == 64 && |s| == 8 && Rotates(s, h, block, 64)
    ensures RegsOf(s) == Rounds(h, block, 64)
  {
    Realigned(s);
    hide View, RegsOf, Rounds;
  }
}
