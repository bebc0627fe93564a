/** The Salsa20/8 core: section 3 of RFC 7914, and salsa20_8 of crypto_scrypt-nosse.cpp. */
module Salsa {
  import opened Words

  /** R(a, b) of the source. */
  function Rotl(x: word, n: bv32): word
    requires n <= 32
  {
    (x << n) | (x >> (32 - n))
  }

  /** x ^ R(a + b, n) */
  function Arx(x: word, a: word, b: word, n: bv32): word
    requires n <= 32
  {
    Xor(x, Rotl(Add(a, b), n))
  }

  /** quarterround(y0, y1, y2, y3) */
  function Quarter(y0: word, y1: word, y2: word, y3: word): (word, word, word, word)
  {
    var z1 := Arx(y1, y0, y3, 7);
    var z2 := Arx(y2, z1, y0, 9);
    var z3 := Arx(y3, z2, z1, 13);
    var z0 := Arx(y0, z3, z2, 18);
    (z0, z1, z2, z3)
  }

  /** A quarterround on four positions of a block. */
  function QuarterAt(x: seq<word>, i0: nat, i1: nat, i2: nat, i3: nat): (y: seq<word>)
    requires |x| == 16 && i0 < 16 && i1 < 16 && i2 < 16 && i3 < 16
    ensures |y| == 16
  {
    var (z0, z1, z2, z3) := Quarter(x[i0], x[i1], x[i2], x[i3]);
    x[i0 := z0][i1 := z1][i2 := z2][i3 := z3]
  }

  /** Each column of the 4 x 4 matrix, starting from its diagonal element. */
  function ColumnRound(x: seq<word>): (y: seq<word>)
    requires |x| == 16
    ensures |y| == 16
  {
    QuarterAt(QuarterAt(QuarterAt(QuarterAt(x, 0, 4, 8, 12), 5, 9, 13, 1), 10, 14, 2, 6), 15, 3, 7, 11)
  }

  /** Each row likewise. */
  function RowRound(x: seq<word>): (y: seq<word>)
    requires |x| == 16
    ensures |y| == 16
  {
    QuarterAt(QuarterAt(QuarterAt(QuarterAt(x, 0, 1, 2, 3), 5, 6, 7, 4), 10, 11, 8, 9), 15, 12, 13, 14)
  }

  function DoubleRound(x: seq<word>): (y: seq<word>)
    requires |x| == 16
    ensures |y| == 16
  {
    RowRound(ColumnRound(x))
  }

  function DoubleRounds(x: seq<word>, n: nat): (y: seq<word>)
    requires |x| == 16
    ensures |y| == 16
  {
    if n == 0 then x else DoubleRound(DoubleRounds(x, n - 1))
  }

  function AddBlocks(x: seq<word>, y: seq<word>): (z: seq<word>)
    requires |x| == |y|
    ensures |z| == |x|
  {
    seq(|x|, i requires 0 <= i < |x| => Add(x[i], y[i]))
  }

  /** Eight rounds, then the feed-forward. */
  function Salsa20_8(b: seq<word>): (r: seq<word>)
    requires |b| == 16
    ensures |r| == 16
  {
    AddBlocks(b, DoubleRounds(b, 4))
  }

  // The doubleround is a bijection on blocks.

  function InverseQuarter(z0: word, z1: word, z2: word, z3: word): (word, word, word, word)
  {
    var y0 := Arx(z0, z3, z2, 18);
    var y3 := Arx(z3, z2, z1, 13);
    var y2 := Arx(z2, z1, y0, 9);
    var y1 := Arx(z1, y0, y3, 7);
    (y0, y1, y2, y3)
  }

  lemma ArxTwice(x: word, a: word, b: word, n: bv32)
    requires n <= 32
    ensures Arx(Arx(x, a, b, n), a, b, n) == x
  {
    hide Rotl, Xor, Add;
    XorCancels(x, Rotl(Add(a, b), n));
  }

  lemma QuarterInverts(a: word, b: word, c: word, d: word)
    ensures var (p, q, r, s) := Quarter(a, b, c, d); InverseQuarter(p, q, r, s) == (a, b, c, d)
    ensures var (p, q, r, s) := InverseQuarter(a, b, c, d); Quarter(p, q, r, s) == (a, b, c, d)
  {
    hide Arx;
    var (p, q, r, s) := Quarter(a, b, c, d);
    ArxTwice(a, s, r, 18); ArxTwice(d, r, q, 13); ArxTwice(c, q, a, 9); ArxTwice(b, a, d, 7);
    var (y0, y1, y2, y3) := InverseQuarter(a, b, c, d);
    ArxTwice(b, y0, y3, 7); ArxTwice(c, b, y0, 9); ArxTwice(d, c, b, 13); ArxTwice(a, d, c, 18);
  }

  /** Four distinct positions are overwritten in place by a quarterround. */
  method QuarterInPlace(x: array<word>, i0: nat, i1: nat, i2: nat, i3: nat)
    requires x.Length == 16 && i0 < 16 && i1 < 16 && i2 < 16 && i3 < 16
    requires i0 != i1 && i0 != i2 && i0 != i3 && i1 != i2 && i1 != i3 && i2 != i3
    modifies x
    ensures x[..] == QuarterAt(old(x[..]), i0, i1, i2, i3)
  {
    hide Arx;
    x[i1] := Arx(x[i1], x[i0], x[i3], 7);
    x[i2] := Arx(x[i2], x[i1], x[i0], 9);
    x[i3] := Arx(x[i3], x[i2], x[i1], 13);
    x[i0] := Arx(x[i0], x[i3], x[i2], 18);
  }

  /** The body of the loop of salsa20_8: the columns, then the rows. */
  method DoubleRoundInPlace(x: array<word>)
    requires x.Length == 16
    modifies x
    ensures x[..] == DoubleRound(old(x[..]))
  {
    hide QuarterAt;
    QuarterInPlace(x, 0, 4, 8, 12);
    QuarterInPlace(x, 5, 9, 13, 1);
    QuarterInPlace(x, 10, 14, 2, 6);
    QuarterInPlace(x, 15, 3, 7, 11);
    QuarterInPlace(x, 0, 1, 2, 3);
    QuarterInPlace(x, 5, 6, 7, 4);
    QuarterInPlace(x, 10, 11, 8, 9);
    QuarterInPlace(x, 15, 12, 13, 14);
  }

  /** salsa20_8 on the 16 words of m at off; nothing else changes. */
  method SalsaInPlace(m: array<word>, off: nat)
    requires off + 16 <= m.Length
    modifies m
    ensures m[off..off + 16] == Salsa20_8(old(m[off..off + 16]))
    ensures m[..off] == old(m[..off]) && m[off + 16..] == old(m[off + 16..])
  {
    hide *;
    ghost var b := m[off..off + 16];
    var x := CopyOut(m, off);
    ghost var n := 0;
    NoRounds(b);
    var i := 0;
    while i < 8
      invariant n <= 4 && i == 2 * n
      invariant m[..] == old(m[..])
      invariant x.Length == 16 && x != m && x[..] == DoubleRounds(b, n)
      decreases 8 - i
    {
      MoreRounds(b, n);
      DoubleRoundInPlace(x);
      i := i + 2;
      n := n + 1;
    }
    SalsaDef(b);
    AddIn(m, off, x);
  }

  lemma NoRounds(b: seq<word>)
    requires |b| == 16
    ensures DoubleRounds(b, 0) == b
  {
  }

  lemma MoreRounds(b: seq<word>, n: nat)
    requires |b| == 16
    ensures DoubleRounds(b, n + 1) == DoubleRound(DoubleRounds(b, n))
  {
    hide DoubleRound;
  }

  lemma SalsaDef(b: seq<word>)
    requires |b| == 16
    ensures Salsa20_8(b) == AddBlocks(b, DoubleRounds(b, 4))
  {
    hide AddBlocks, DoubleRounds;
  }

  /** Line 85: the working copy. */
  method CopyOut(m: array<word>, off: nat) returns (x: array<word>)
    requires off + 16 <= m.Length
    ensures fresh(x) && x.Length == 16 && x[..] == m[off..off + 16]
  {
    x := new word[16];
    for k := 0 to 16
      invariant x[..k] == m[off..off + k]
    {
      x[k] := m[off + k];
    }
    assert x[..] == x[..16];
  }

  /** Lines 115-116: the feed-forward. */
  method AddIn(m: array<word>, off: nat, x: array<word>)
    requires off + 16 <= m.Length && x.Length == 16 && x != m
    modifies m
    ensures m[off..off + 16] == AddBlocks(old(m[off..off + 16]), x[..])
    ensures m[..off] == old(m[..off]) && m[off + 16..] == old(m[off + 16..])
  {
    hide Add;
    ghost var b := m[off..off + 16];
    for k := 0 to 16
      invariant m[..off] == old(m[..off])
      invariant forall j :: 0 <= j < k ==> m[off + j] == Add(b[j], x[j])
      invariant forall j :: off + k <= j < m.Length ==> m[j] == old(m[j])
    {
      assert m[off + k] == b[k];
      m[off + k] := Add(m[off + k], x[k]);
    }
    assert m[off..off + 16] == AddBlocks(b, x[..]);
  }

  // The doubleround part is a bijection.

  function InverseAt(x: seq<word>, i0: nat, i1: nat, i2: nat, i3: nat): (y: seq<word>)
    requires |x| == 16 && i0 < 16 && i1 < 16 && i2 < 16 && i3 < 16
    ensures |y| == 16
  {
    var (y0, y1, y2, y3) := InverseQuarter(x[i0], x[i1], x[i2], x[i3]);
    x[i0 := y0][i1 := y1][i2 := y2][i3 := y3]
  }

  lemma AtInverts(x: seq<word>, i0: nat, i1: nat, i2: nat, i3: nat)
    requires |x| == 16 && i0 < 16 && i1 < 16 && i2 < 16 && i3 < 16
    requires i0 != i1 && i0 != i2 && i0 != i3 && i1 != i2 && i1 != i3 && i2 != i3
    ensures InverseAt(QuarterAt(x, i0, i1, i2, i3), i0, i1, i2, i3) == x
    ensures QuarterAt(InverseAt(x, i0, i1, i2, i3), i0, i1, i2, i3) == x
  {
    QuarterInverts(x[i0], x[i1], x[i2], x[i3]);
    hide Quarter, InverseQuarter;
    var (z0, z1, z2, z3) := Quarter(x[i0], x[i1], x[i2], x[i3]);
    PutBack(x, i0, i1, i2, i3, z0, z1, z2, z3);
    var (y0, y1, y2, y3) := InverseQuarter(x[i0], x[i1], x[i2], x[i3]);
    PutBack(x, i0, i1, i2, i3, y0, y1, y2, y3);
  }

  lemma PutBack<T>(x: seq<T>, i0: nat, i1: nat, i2: nat, i3: nat, z0: T, z1: T, z2: T, z3: T)
    requires |x| == 16 && i0 < 16 && i1 < 16 && i2 < 16 && i3 < 16
    requires i0 != i1 && i0 != i2 && i0 != i3 && i1 != i2 && i1 != i3 && i2 != i3
    ensures var y := x[i0 := z0][i1 := z1][i2 := z2][i3 := z3];
            && y[i0] == z0 && y[i1] == z1 && y[i2] == z2 && y[i3] == z3
            && y[i0 := x[i0]][i1 := x[i1]][i2 := x[i2]][i3 := x[i3]] == x
  {
  }

  function InverseColumnRound(x: seq<word>): (y: seq<word>)
    requires |x| == 16
    ensures |y| == 16
  {
    InverseAt(InverseAt(InverseAt(InverseAt(x, 15, 3, 7, 11), 10, 14, 2, 6), 5, 9, 13, 1), 0, 4, 8, 12)
  }

  function InverseRowRound(x: seq<word>): (y: seq<word>)
    requires |x| == 16
    ensures |y| == 16
  {
    InverseAt(InverseAt(InverseAt(InverseAt(x, 15, 12, 13, 14), 10, 11, 8, 9), 5, 6, 7, 4), 0, 1, 2, 3)
  }

  function InverseDoubleRound(x: seq<word>): (y: seq<word>)
    requires |x| == 16
    ensures |y| == 16
  {
    InverseColumnRound(InverseRowRound(x))
  }

  lemma ColumnsUndone(x: seq<word>)
    requires |x| == 16
    ensures InverseColumnRound(ColumnRound(x)) == x && ColumnRound(InverseColumnRound(x)) == x
  {
    hide QuarterAt, InverseAt;
    var a := QuarterAt(x, 0, 4, 8, 12);
    var b := QuarterAt(a, 5, 9, 13, 1);
    var c := QuarterAt(b, 10, 14, 2, 6);
    AtInverts(x, 0, 4, 8, 12); AtInverts(a, 5, 9, 13, 1); AtInverts(b, 10, 14, 2, 6); AtInverts(c, 15, 3, 7, 11);
    var p := InverseAt(x, 15, 3, 7, 11);
    var q := InverseAt(p, 10, 14, 2, 6);
    var r := InverseAt(q, 5, 9, 13, 1);
    AtInverts(x, 15, 3, 7, 11); AtInverts(p, 10, 14, 2, 6); AtInverts(q, 5, 9, 13, 1); AtInverts(r, 0, 4, 8, 12);
  }

  lemma RowsUndone(x: seq<word>)
    requires |x| == 16
    ensures InverseRowRound(RowRound(x)) == x && RowRound(InverseRowRound(x)) == x
  {
    hide QuarterAt, InverseAt;
    var a := QuarterAt(x, 0, 1, 2, 3);
    var b := QuarterAt(a, 5, 6, 7, 4);
    var c := QuarterAt(b, 10, 11, 8, 9);
    AtInverts(x, 0, 1, 2, 3); AtInverts(a, 5, 6, 7, 4); AtInverts(b, 10, 11, 8, 9); AtInverts(c, 15, 12, 13, 14);
    var p := InverseAt(x, 15, 12, 13, 14);
    var q := InverseAt(p, 10, 11, 8, 9);
    var r := InverseAt(q, 5, 6, 7, 4);
    AtInverts(x, 15, 12, 13, 14); AtInverts(p, 10, 11, 8, 9); AtInverts(q, 5, 6, 7, 4); AtInverts(r, 0, 1, 2, 3);
  }

  /** DoubleRound and InverseDoubleRound undo each other on every 16-word block. */
  lemma DoubleRoundBijective(x: seq<word>)
    requires |x| == 16
    ensures InverseDoubleRound(DoubleRound(x)) == x
    ensures DoubleRound(InverseDoubleRound(x)) == x
  {
    hide ColumnRound, RowRound, InverseColumnRound, InverseRowRound;
    ColumnsUndone(x);
    RowsUndone(ColumnRound(x));
    RowsUndone(x);
    ColumnsUndone(InverseRowRound(x));
  }
}
