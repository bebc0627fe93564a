/** PBKDF2 with HMAC-SHA256: section 5.2 of RFC 8018, and libscrypt_PBKDF2_SHA256. */
module Pbkdf2 {
  import opened Words
  import opened Hmac
  import S = Sha256

  /** U_j: the pseudorandom function iterated j times from S || INT(i). */
  function U(p: seq<byte>, s: seq<byte>, i: nat, j: nat): (u: seq<byte>)
    requires j >= 1
    ensures |u| == 32
  {
    if j == 1 then Hmac.Hmac(p, s + BigEndian(i, 4)) else Hmac.Hmac(p, U(p, s, i, j - 1))
  }

  /** F(P, S, c, i) = U_1 xor U_2 xor ... xor U_c */
  function F(p: seq<byte>, s: seq<byte>, c: nat, i: nat): (t: seq<byte>)
    requires c >= 1
    ensures |t| == 32
  {
    if c == 1 then U(p, s, i, 1) else XorBytes(F(p, s, c - 1, i), U(p, s, i, c))
  }

  /** T_1 || T_2 || ... || T_l */
  function Blocks(p: seq<byte>, s: seq<byte>, c: nat, l: nat): (t: seq<byte>)
    requires c >= 1
    ensures |t| == 32 * l
  {
    if l == 0 then [] else Blocks(p, s, c, l - 1) + F(p, s, c, l)
  }

  /** The first dkLen octets of ceil(dkLen / 32) blocks. */
  function Pbkdf2(p: seq<byte>, s: seq<byte>, c: nat, dkLen: nat): (dk: seq<byte>)
    requires c >= 1
    ensures |dk| == dkLen
  {
    Blocks(p, s, c, (dkLen + 31) / 32)[..dkLen]
  }

  /** Octet k of the key is octet k mod 32 of block k / 32 + 1: blocks are numbered from 1 and stand in order. */
  lemma OctetOfBlock(p: seq<byte>, s: seq<byte>, c: nat, dkLen: nat, k: nat)
    requires c >= 1 && k < dkLen
    ensures Pbkdf2(p, s, c, dkLen)[k] == F(p, s, c, k / 32 + 1)[k % 32]
  {
    BlockOctet(p, s, c, (dkLen + 31) / 32, k);
    hide Blocks, F;
  }

  lemma {:induction false} BlockOctet(p: seq<byte>, s: seq<byte>, c: nat, l: nat, k: nat)
    requires c >= 1 && k < 32 * l
    ensures Blocks(p, s, c, l)[k] == F(p, s, c, k / 32 + 1)[k % 32]
  {
    hide F;
    if k < 32 * (l - 1) {
      BlockOctet(p, s, c, l - 1, k);
    } else {
      assert k / 32 == l - 1 && k % 32 == k - 32 * (l - 1);
    }
  }

  /** The number of a block enters its first step in four octets, most significant first. */
  lemma FirstStep(p: seq<byte>, s: seq<byte>, i: nat, e: seq<byte>)
    requires |e| == 4 && i < 0x1_0000_0000 && Number(e) == i
    ensures U(p, s, i, 1) == Hmac.Hmac(p, s + e)
  {
    hide Hmac.Hmac, Number, BigEndian;
    assert Pow256(2) == 0x1_0000 && Pow256(4) == 0x1_0000_0000;
    BigEndianValue(i, 4);
    NumberInjective(e, BigEndian(i, 4));
  }

  /** One block and one iteration is one MAC. */
  lemma OneMac(p: seq<byte>, s: seq<byte>)
    ensures Pbkdf2(p, s, 1, 32) == Hmac.Hmac(p, s + [0, 0, 0, 1])
  {
    hide Hmac.Hmac, U;
    var e: seq<byte> := [0, 0, 0, 1];
    assert e[..3] == [0, 0, 0] && e[..3][..2] == [0, 0] && e[..3][..2][..1] == [0] && e[..3][..2][..1][..0] == [];
    assert Number([0, 0]) == 0 && Number(e) == 1;
    FirstStep(p, s, 1, e);
    assert Blocks(p, s, 1, 0) == [] && Blocks(p, s, 1, 1) == [] + F(p, s, 1, 1);
    assert F(p, s, 1, 1)[..32] == F(p, s, 1, 1);
  }

  /** z is the exclusive or of x and y, octet by octet. */
  predicate IsXor(z: seq<byte>, x: seq<byte>, y: seq<byte>)
  {
    |z| == |x| == |y| && forall k :: 0 <= k < |z| ==> z[k] == x[k] ^ y[k]
  }

  /**
   * Any u_1, ..., u_c and t_1, ..., t_c that are made by the steps of the standard end in the block: u_1 is the MAC
   * of the salt and the block's number, every other u the MAC of the one before, and t joins them by exclusive or.
   */
  lemma {:induction false} BlockTrace(p: seq<byte>, s: seq<byte>, i: nat, e: seq<byte>, u: seq<seq<byte>>,
                                      t: seq<seq<byte>>, c: nat)
    requires |e| == 4 && i < 0x1_0000_0000 && Number(e) == i && 1 <= c <= |u| == |t|
    requires forall j :: 0 <= j < |u| ==> |t[j]| == |u[j]| == 32
    requires u[0] == Hmac.Hmac(p, s + e) && t[0] == u[0]
    requires forall j :: 0 <= j < |u| - 1 ==> u[j + 1] == Hmac.Hmac(p, u[j])
    requires forall j :: 0 <= j < |u| - 1 ==> IsXor(t[j + 1], t[j], u[j + 1])
    ensures U(p, s, i, c) == u[c - 1] && F(p, s, c, i) == t[c - 1]
  {
    hide Hmac.Hmac, Number;
    if c == 1 {
      FirstStep(p, s, i, e);
    } else {
      BlockTrace(p, s, i, e, u, t, c - 1);
      FoldStep(p, s, i, c);
      hide U, F;
      assert u[c - 2 + 1] == Hmac.Hmac(p, u[c - 2]);
      assert IsXor(t[c - 2 + 1], t[c - 2], u[c - 2 + 1]);
      assert XorBytes(t[c - 2], u[c - 1]) == t[c - 1];
    }
  }

  lemma {:induction false} BlocksExtend(p: seq<byte>, s: seq<byte>, c: nat, l: nat, m: nat)
    requires c >= 1 && l <= m
    ensures Blocks(p, s, c, l) <= Blocks(p, s, c, m)
  {
    hide F;
    if l < m {
      BlocksExtend(p, s, c, l, m - 1);
      var b, f := Blocks(p, s, c, m - 1), F(p, s, c, m);
      assert Blocks(p, s, c, m) == b + f;
      assert b <= b + f;
    }
  }

  /** A shorter key is a prefix of a longer one. */
  lemma PrefixOfLonger(p: seq<byte>, s: seq<byte>, c: nat, n: nat, m: nat)
    requires c >= 1 && n <= m
    ensures Pbkdf2(p, s, c, n) == Pbkdf2(p, s, c, m)[..n]
  {
    hide Blocks;
    BlocksExtend(p, s, c, (n + 31) / 32, (m + 31) / 32);
  }

  /** The iteration count the loop from j = 2 really performs: a count of zero acts as one. */
  function Iterations(c: nat): (i: nat)
    ensures i >= 1 && (c >= 1 ==> i == c) && (c == 0 ==> i == 1)
  {
    if c == 0 then 1 else c
  }

  const MAX_KEY: int := 32 * 0xFFFF_FFFF

  /** One block of the loop body, lines 381-400: T holds F(P, S, c, i + 1). */
  method Block(start: HmacCtx, hctx: HmacCtx, passwd: seq<byte>, salt: seq<byte>, c: nat, i: nat, t: array<byte>)
    requires start.Valid() && start.key == passwd && start.text == salt
    requires hctx.Shape() && hctx.Repr !! start.Repr
    requires t.Length == 32 && t !in start.Repr && t !in hctx.Repr
    modifies hctx.Repr, t
    ensures t[..] == F(passwd, salt, Iterations(c), i + 1)
  {
    hide *;
    var u := new byte[32];
    FirstBlockOf(passwd, salt, i + 1);
    hctx.CopyFrom(start);
    Prf(hctx, Be32EncNat(i + 1), u);
    S.CopyAll(t, u[..]);
    FoldRest(hctx, passwd, salt, c, i, t, u);
  }

  /** Lines 391-400: U_2, ..., U_c are folded into T. */
  method FoldRest(hctx: HmacCtx, passwd: seq<byte>, ghost salt: seq<byte>, c: nat, ghost i: nat,
                  t: array<byte>, u: array<byte>)
    requires hctx.Shape() && t.Length == u.Length == 32 && t != u && t !in hctx.Repr && u !in hctx.Repr
    requires t[..] == u[..] == U(passwd, salt, i + 1, 1)
    modifies hctx.Repr, t, u
    ensures t[..] == F(passwd, salt, Iterations(c), i + 1)
  {
    hide *;
    var n := Iterations(c);
    FirstFold(passwd, salt, i + 1);
    var j := 2;
    while j <= c
      invariant 2 <= j <= n + 1
      invariant hctx.Shape() && u[..] == U(passwd, salt, i + 1, j - 1)
      invariant t[..] == F(passwd, salt, j - 1, i + 1)
    {
      FoldStep(passwd, salt, i + 1, j);
      hctx.Init(passwd);
      ghost var previous := u[..];
      Prf(hctx, u[..], u);
      assert [] + previous == previous;
      XorInto(t, u);
      j := j + 1;
    }
  }

  lemma FirstBlockOf(p: seq<byte>, s: seq<byte>, i: nat)
    ensures U(p, s, i, 1) == Hmac.Hmac(p, s + Be32EncNat(i))
  {
    Be32EncNatIsBigEndian(i);
    hide Hmac.Hmac, BigEndian, Be32EncNat;
  }

  lemma FirstFold(p: seq<byte>, s: seq<byte>, i: nat)
    ensures F(p, s, 1, i) == U(p, s, i, 1)
  {
    hide U;
  }

  lemma FoldStep(p: seq<byte>, s: seq<byte>, i: nat, j: nat)
    requires j >= 2
    ensures U(p, s, i, j) == Hmac.Hmac(p, U(p, s, i, j - 1))
    ensures F(p, s, j, i) == XorBytes(F(p, s, j - 1, i), U(p, s, i, j))
  {
    hide Hmac.Hmac, XorBytes;
  }

  /** HMAC_Update, then HMAC_Final. */
  method Prf(hctx: HmacCtx, input: seq<byte>, u: array<byte>)
    requires hctx.Valid() && u.Length == 32 && u !in hctx.Repr
    modifies hctx.Repr, u
    ensures hctx.Shape() && u[..] == Hmac.Hmac(old(hctx.key), old(hctx.text) + input)
  {
    hctx.Update(input);
    hctx.Final(u);
  }

  /** T[k] ^= U[k] */
  method XorInto(t: array<byte>, u: array<byte>)
    requires t.Length == u.Length && t != u
    modifies t
    ensures t[..] == XorBytes(old(t[..]), u[..])
  {
    for k := 0 to t.Length
      invariant forall j :: 0 <= j < k ==> t[j] == old(t[j]) ^ u[j]
      invariant forall j :: k <= j < t.Length ==> t[j] == old(t[j])
    {
      t[k] := t[k] ^ u[k];
    }
  }

  /** libscrypt_PBKDF2_SHA256 writes the PBKDF2 key, whose last block may be short, into buf. */
  method Derive(passwd: seq<byte>, salt: seq<byte>, c: nat, buf: array<byte>)
    requires buf.Length <= MAX_KEY
    modifies buf
    ensures buf[..] == Pbkdf2(passwd, salt, Iterations(c), buf.Length)
  {
    hide HmacCtx.Valid, F, U, Hmac.Hmac, Written;
    WrittenInit(buf[..]);
    var start := new HmacCtx();
    var hctx := new HmacCtx();
    var t := new byte[32];
    start.Init(passwd);
    start.Update(salt);
    var i := 0;
    while i * 32 < buf.Length
      invariant i <= (buf.Length + 31) / 32
      invariant start.Valid() && start.key == passwd && start.text == salt && hctx.Shape()
      invariant Written(buf[..], Blocks(passwd, salt, Iterations(c), i))
    {
      Block(start, hctx, passwd, salt, c, i, t);
      var clen := if buf.Length - i * 32 > 32 then 32 else buf.Length - i * 32;
      WriteBlock(buf[..], Blocks(passwd, salt, Iterations(c), i), t[..], clen);
      S.Memcpy(buf, i * 32, t[..clen]);
      i := i + 1;
    }
    WrittenAll(buf[..], Blocks(passwd, salt, Iterations(c), i));
  }

  /** As much of dk as fits has been copied into buf. */
  ghost predicate Written(buf: seq<byte>, dk: seq<byte>)
  {
    var n := if |dk| <= |buf| then |dk| else |buf|;
    buf[..n] == dk[..n]
  }

  lemma WrittenInit(buf: seq<byte>)
    ensures Written(buf, [])
  {
  }

  lemma WrittenAll(buf: seq<byte>, dk: seq<byte>)
    requires Written(buf, dk) && |dk| >= |buf|
    ensures buf == dk[..|buf|]
  {
  }

  lemma WriteBlock(buf: seq<byte>, dk: seq<byte>, t: seq<byte>, clen: nat)
    requires Written(buf, dk) && |t| == 32 && |dk| < |buf|
    requires clen == if |buf| - |dk| > 32 then 32 else |buf| - |dk|
    ensures Written(buf[..|dk|] + t[..clen] + buf[|dk| + clen..], dk + t)
  {
  }
}
