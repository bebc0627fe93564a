/** The modular crypt format: crypto-mcf.cpp, crypto_scrypt-check.cpp, slowequals.cpp and hash_password of blog.cpp. */
module Mcf {
  import opened Words
  import opened Bits
  import opened CStrings
  import opened Base64
  import opened B64
  import Scrypt
  import Smix

  const SAFE_N: nat := 30
  const FAILED: nat := 0xFFFF_FFFF
  const MCF_LEN: nat := 128

  ghost predicate IsLog(n: nat, t: nat)
  {
    if n >= 2 && IsPow2(n) then 1 <= t <= 31 && n == Pow2(t) else t == FAILED
  }

  /** scrypt_ilog2: the exponent of a power of two from 2 upwards, and 2^32 - 1 for every other number. */
  method Ilog2(n: nat) returns (t: nat)
    requires n < TWO32
    ensures IsLog(n, t)
  {
    if n > 0 { AndPredZero(n); }
    hide And;
    if n < 2 || And(n, n - 1) != 0 {
      return FAILED;
    }
    ghost var e: nat :| n == Pow2(e);
    ExponentBound(e);
    t := 1;
    while Pow2(t) < n
      invariant 1 <= t <= e <= 31 && n == Pow2(e)
      decreases e - t
    {
      Pow2Monotone(e, t);
      if t > SAFE_N {
        return FAILED;
      }
      t := t + 1;
    }
    Pow2Monotone(t, e);
  }

  lemma ExponentBound(e: nat)
    requires 2 <= Pow2(e) < TWO32
    ensures 1 <= e <= 31
  {
    if e > 31 { Pow2Monotone(32, e); Pow2Of32(); }
  }

  lemma Pow2Of32()
    ensures Pow2(32) == TWO32
  {
    assert Pow2(8) == 256;
    assert Pow2(16) == 65536;
    assert Pow2(24) == 0x100_0000;
  }

  /** params of libscrypt_mcf, in 32 bits: (r << 8) + p + (t << 16). */
  function Pack(t: nat, r: nat, p: nat): (params: nat)
    ensures params < TWO32
  {
    (r * 256 + p + t * 0x1_0000 % TWO32) % TWO32
  }

  /** The shifts and masks of libscrypt_check undo the packing exactly when the three numbers fit their fields. */
  lemma PackRoundTrip(t: nat, r: nat, p: nat)
    requires r <= 255 && p <= 255
    ensures (Pack(t, r, p) % 256 == p && Pack(t, r, p) / 256 % 256 == r && Pack(t, r, p) / 0x1_0000 == t)
       <==> t < 0x1_0000
  {
    var q := t % 0x1_0000;
    PackValue(t, r, p, q);
    hide Pack;
    var w := q * 256 + r;
    assert Pack(t, r, p) == w * 256 + p;
    assert (w * 256 + p) % 256 == p && (w * 256 + p) / 256 == w && (w * 256 + p) / 0x1_0000 == w / 256;
    assert w % 256 == r && w / 256 == q;
  }

  lemma PackValue(t: nat, r: nat, p: nat, q: nat)
    requires r <= 255 && p <= 255 && q == t % 0x1_0000
    ensures Pack(t, r, p) == q * 0x1_0000 + r * 256 + p
  {
    assert t == t / 0x1_0000 * 0x1_0000 + q;
    assert t * 0x1_0000 % TWO32 == q * 0x1_0000;
  }

  function Text(params: nat, salt: string, hash: string): string
  {
    "$" + ("s1" + ("$" + (Hex(params, 6) + ("$" + (salt + ("$" + hash))))))
  }

  /** With the program's own parameters, N = 2^14, r = 8 and p = 16. */
  lemma OwnText(salt: string, hash: string)
    ensures Text(Pack(14, 8, 16), salt, hash) == "$s1$" + "0e0810" + "$" + salt + "$" + hash
  {
    assert Pack(14, 8, 16) == 0xe0810;
    OwnField();
    hide Hex, Pack;
    var h := Hex(0xe0810, 6);
    assert "$" + ("s1" + ("$" + (h + ("$" + (salt + ("$" + hash)))))) == "$s1$" + h + "$" + salt + "$" + hash;
  }

  lemma OwnField()
    ensures Hex(0xe0810, 6) == "0e0810"
  {
    assert Hex(0, 0) == "";
    HexSnoc(0, 1); HexSnoc(0xe, 2); HexSnoc(0xe0, 3); HexSnoc(0xe08, 4); HexSnoc(0xe081, 5); HexSnoc(0xe0810, 6);
    hide Hex;
    assert Hex(0, 1) == "0" && Hex(0xe, 2) == "0e" && Hex(0xe0, 3) == "0e0";
    assert Hex(0xe08, 4) == "0e08" && Hex(0xe081, 5) == "0e081";
  }

  lemma HexSnoc(x: nat, w: nat)
    requires w > 0
    ensures Hex(x, w) == Hex(x / 16, w - 1) + [HexDigit(x % 16)]
  {
    hide HexDigit;
  }

  /** SNPRINTF(mcf, 128, ...): at most 127 characters and a NUL. */
  method Print(mcf: array<char>, text: string)
    requires mcf.Length >= MCF_LEN && '\0' !in text
    modifies mcf
    ensures CStr(mcf[..], 0) == if |text| < MCF_LEN then text else text[..MCF_LEN - 1]
  {
    var n := if |text| < MCF_LEN then |text| else MCF_LEN - 1;
    for i := 0 to n
      invariant mcf[..i] == text[..i]
    {
      mcf[i] := text[i];
    }
    mcf[n] := '\0';
    assert mcf[..n] == text[..n];
    CStrSlice(mcf[..], 0, n);
  }

  /** libscrypt_mcf */
  method McfPrint(n: nat, r: nat, p: nat, salt: string, hash: string, mcf: array<char>) returns (ret: int)
    requires n < TWO32 && r < TWO32 && p < TWO32 && '\0' !in salt && '\0' !in hash && mcf.Length >= MCF_LEN
    modifies mcf
    ensures r > 255 || p > 255 ==> ret == 0
    ensures r <= 255 && p <= 255 ==> exists t :: IsLog(n, t) && Printed(ret, mcf[..], Text(Pack(t, r, p), salt, hash))
  {
    hide IsPow2, Pow2, Pack, CStr;
    if r > 255 || p > 255 {
      return 0;
    }
    var t := Ilog2(n);
    if t < 1 {
      assert false; // unsigned: a failure of scrypt_ilog2 is 2^32 - 1, which this test lets through
    }
    var params := Pack(t, r, p);
    var text := Text(params, salt, hash);
    TextPlain(params, salt, hash);
    Print(mcf, text);
    return if |text| >= MCF_LEN then 0 else 1;
  }

  /** The text was written whole, or reported as too long. */
  ghost predicate Printed(ret: int, mcf: seq<char>, text: string)
  {
    if |text| < 128 then ret == 1 && CStr(mcf, 0) == text else ret == 0
  }

  lemma TextPlain(params: nat, salt: string, hash: string)
    requires '\0' !in salt && '\0' !in hash
    ensures '\0' !in Text(params, salt, hash)
  {
    assert HexValue('\0') == 16;
  }

  /** slow_equals decides equality of strings: 1 when they are equal and 0 when they are not. */
  method SlowEquals(a: string, b: string) returns (r: nat)
    ensures r == if a == b then 1 else 0
  {
    var diff := Bits.Xor(|a|, |b|);
    XorZero(|a|, |b|);
    var i := 0;
    hide Bits.Xor, Bits.Or;
    while i < |a| && i < |b|
      invariant i <= |a| && i <= |b|
      invariant diff == 0 <==> |a| == |b| && a[..i] == b[..i]
    {
      var d := Bits.Xor(a[i] as nat, b[i] as nat);
      XorZero(a[i] as nat, b[i] as nat);
      OrZero(diff, d);
      diff := Bits.Or(diff, d);
      assert a[..i + 1] == a[..i] + [a[i]] && b[..i + 1] == b[..i] + [b[i]];
      i := i + 1;
    }
    assert |a| == |b| ==> a[..i] == a && b[..i] == b;
    return if diff == 0 then 1 else 0;
  }

  // libscrypt_check.

  datatype Expectation = Rejected | Hash(text: string)

  /** The Base64 hash that the parameters, the salt field and the password call for, lines 65-93. */
  ghost function Expected(params: nat, saltField: string, password: seq<byte>): Expectation
  {
    var t, r, p := params / 0x1_0000, params / 256 % 256, params % 256;
    match Base64.Decode(Strip(saltField))
    case Malformed => Rejected
    case Data(salt) =>
      if 1 <= t <= SAFE_N && r >= 1 && p >= 1 && 1 <= |salt| <= 32 then
        Hash(Base64.Encode(Scrypt.Key(password, salt, Pow2(t), r, p, 64)))
      else
        Rejected
  }

  /** The answer for an expected hash and a stored one. */
  ghost function FieldVerdict(e: Expectation, stored: string): int
  {
    match e
    case Rejected => -1
    case Hash(h) => if stored == h then 1 else 0
  }

  lemma FieldVerdicts(e: Expectation, stored: string)
    ensures if e.Hash? then FieldVerdict(e, stored) == (if stored == e.text then 1 else 0)
            else FieldVerdict(e, stored) == -1
  {
  }

  /** What libscrypt_check answers for a stored string and a password. */
  ghost function Verdict(text: string, password: seq<byte>): int
  {
    var ts := Tokens(text);
    if |text| < 3 || text[..3] != "$s1" || |ts| < 4 then -1
    else
      var params := StrToUl16(ts[1]) % TWO32;
      FieldVerdict(Expected(params, ts[2], password), ts[3])
  }

  lemma ExpectedRejects(params: nat, saltField: string, password: seq<byte>)
    requires params / 0x1_0000 > SAFE_N || Answer(saltField, 32) < 1
    ensures Expected(params, saltField, password) == Rejected
  {
    hide Base64.Decode, Strip, Scrypt.Key, Pow2;
  }

  lemma ExpectedFrom(params: nat, saltField: string, password: seq<byte>, salt: seq<byte>)
    requires Base64.Decode(Strip(saltField)) == Data(salt) && 1 <= |salt| <= 32
    ensures var t, r, p := params / 0x1_0000, params / 256 % 256, params % 256;
            Expected(params, saltField, password)
            == if 1 <= t <= SAFE_N && r >= 1 && p >= 1 then
                 Hash(Base64.Encode(Scrypt.Key(password, salt, Pow2(t), r, p, 64)))
               else Rejected
  {
    hide Base64.Decode, Base64.Encode, Strip, Scrypt.Key, Pow2;
  }

  /** Within the MCF limits, libscrypt_scrypt rejects only a zero among t, r and p. */
  lemma SmallAccepted(t: nat, r: nat, p: nat)
    requires t <= 31 && r <= 255 && p <= 255
    ensures Scrypt.SizesFit(r, p) && Pow2(t) < TWO32
    ensures Scrypt.Accepts(Pow2(t), r, p, 64) <==> t >= 1 && r >= 1 && p >= 1
  {
    Scrypt.McfSizesFit(r, p);
    Scrypt.ProductBound(r, p);
    SmallPower(t);
    TableBound(r, Pow2(t));
    assert IsPow2(Pow2(t));
    hide Pow2, IsPow2, Scrypt.SizesFit;
  }

  lemma SmallPower(t: nat)
    requires t <= 31
    ensures Pow2(t) < TWO32 && (t >= 1 <==> Pow2(t) >= 2)
  {
    Pow2Monotone(t, 32);
    Pow2Of32();
    if t >= 1 { Pow2Monotone(1, t); }
  }

  lemma TableBound(r: nat, n: nat)
    requires r <= 255 && n < TWO32
    ensures 128 * r * n <= Scrypt.SIZE_MAX
  {
    MulMonotone(255, r, n);
    assert 128 * r * n == 128 * (r * n);
  }

  /** Lines 65-93: unpack, decode the salt, derive the key again and encode it. */
  method Rederive(params: nat, saltField: string, password: seq<byte>) returns (ok: bool, text: string)
    requires params < TWO32 && '\0' !in saltField
    ensures ok <==> Expected(params, saltField, password).Hash?
    ensures ok ==> text == Expected(params, saltField, password).text
  {
    assert SAFE_N == 30 && TWO32 < Scrypt.SIZE_MAX && TWO32 == 0x1_0000_0000;
    hide *;
    var p, r, t := params % 256, params / 256 % 256, params / 0x1_0000;
    if t > 30 {
      ExpectedRejects(params, saltField, password);
      return false, "";
    }
    SmallAccepted(t, r, p);
    var n := Pow2(t);
    var salt := new byte[32];
    var len := B64Decode(saltField, salt);
    if len < 1 {
      ExpectedRejects(params, saltField, password);
      return false, "";
    }
    AnswerBound(saltField, 32);
    ExpectedFrom(params, saltField, password, salt[..len]);
    ok, text := KeyText(password, salt[..len], n, r, p);
  }

  /** Lines 83-93: derive 64 octets and encode them. */
  method KeyText(password: seq<byte>, salt: seq<byte>, n: nat, r: nat, p: nat) returns (ok: bool, text: string)
    requires n <= Scrypt.SIZE_MAX && r < TWO32 && p < TWO32 && Scrypt.SizesFit(r, p)
    ensures ok <==> Scrypt.Accepts(n, r, p, 64)
    ensures ok && r >= 1 && n >= 1 ==> text == Base64.Encode(Scrypt.Key(password, salt, n, r, p, 64))
  {
    hide *;
    var hashbuf := new byte[64];
    var ret, overrun := Scrypt.Derive(password, salt, n, r, p, hashbuf);
    if r >= 1 { Scrypt.OverrunsIff(r, p); }
    if ret != 0 {
      return false, "";
    }
    var outbuf := new char[128];
    var k := B64Encode(hashbuf[..], outbuf);
    return true, outbuf[..k];
  }

  lemma AnswerBound(src: string, n: nat)
    ensures Answer(src, n) <= n
  {
    hide Base64.Decode, Strip;
  }

  lemma VerdictFails(text: string, password: seq<byte>)
    requires |text| < 3 || text[..3] != "$s1" || |Tokens(text)| < 4
    ensures Verdict(text, password) == -1
  {
    hide Tokens, Expected, StrToUl16;
  }

  lemma VerdictOf(text: string, password: seq<byte>, ts: seq<string>)
    requires |text| >= 3 && text[..3] == "$s1" && Tokens(text) == ts && |ts| >= 4
    ensures Verdict(text, password) == FieldVerdict(Expected(StrToUl16(ts[1]) % TWO32, ts[2], password), ts[3])
    ensures StrToUl16(ts[1]) % TWO32 == 0 ==> Verdict(text, password) == -1
  {
    hide Tokens, StrToUl16, Strip, Base64.Decode, Base64.Encode, Scrypt.Key;
  }

  /** The buffer starts with the three characters exactly when its string does. */
  lemma SameId(s: seq<char>)
    requires |s| >= 3
    ensures s[..3] == "$s1" <==> |CStr(s, 0)| >= 3 && CStr(s, 0)[..3] == "$s1"
  {
    assert CStr(s, 0) == if s[0] != '\0' then [s[0]] + CStr(s, 1) else "";
    assert CStr(s, 1) == if s[1] != '\0' then [s[1]] + CStr(s, 2) else "";
    assert CStr(s, 2) == if s[2] != '\0' then [s[2]] + CStr(s, 3) else "";
    if s[..3] == "$s1" {
      assert s[0] == s[..3][0] && s[1] == s[..3][1] && s[2] == s[..3][2];
      assert CStr(s, 0) == "$s1" + CStr(s, 3);
    } else if |CStr(s, 0)| >= 3 {
      assert CStr(s, 0)[..3] == [s[0], s[1], s[2]] == s[..3];
    }
  }

  /** The next of the tokens ts. */
  method Field(mcf: array<char>, from: nat, ghost ts: seq<string>, ghost k: nat)
    returns (found: bool, start: nat, next: nat)
    requires from <= mcf.Length && k <= |ts| && Tokens(CStr(mcf[..], from)) == ts[k..]
    modifies mcf
    ensures found <==> k < |ts|
    ensures found ==> start <= mcf.Length && CStr(mcf[..], start) == ts[k]
    ensures found ==> next <= mcf.Length && Tokens(CStr(mcf[..], next)) == ts[k + 1..]
  {
    hide *;
    found, start, next := StrTok(mcf, from);
    if found {
      FirstOf(ts, k, CStr(mcf[..], start), Tokens(CStr(mcf[..], next)));
    }
  }

  lemma FirstOf(ts: seq<string>, k: nat, head: string, rest: seq<string>)
    requires k < |ts| && [head] + rest == ts[k..]
    ensures ts[k] == head && ts[k + 1..] == rest
  {
    assert ts[k] == ts[k..][0];
    assert ts[k..][1..] == ts[k + 1..];
  }

  /** libscrypt_check: the string is cut into its four fields in place. */
  method Check(mcf: array<char>, password: seq<byte>) returns (ret: int)
    requires mcf.Length >= 3
    modifies mcf
    ensures ret == Verdict(old(CStr(mcf[..], 0)), password)
  {
    assert TWO32 > 0;
    hide *;
    ghost var text := CStr(mcf[..], 0);
    ghost var ts := Tokens(text);
    SameId(mcf[..]);
    if |ts| < 4 || mcf[..3] != "$s1" { VerdictFails(text, password); }
    if mcf[..3] != "$s1" {
      return -1;
    }
    if |ts| >= 4 { VerdictOf(text, password, ts); }
    var found, start, next := Field(mcf, 0, ts, 0);
    if !found {
      return -1;
    }
    found, start, next := Field(mcf, next, ts, 1);
    if !found {
      return -1;
    }
    var params := StrToUl16(CStr(mcf[..], start)) % TWO32;
    if params == 0 {
      return -1;
    }
    ret := CheckFields(mcf, next, ts, params, password);
  }

  /** The third and the fourth field. */
  method CheckFields(mcf: array<char>, from: nat, ghost ts: seq<string>, params: nat, password: seq<byte>)
    returns (ret: int)
    requires from <= mcf.Length && 2 <= |ts| && Tokens(CStr(mcf[..], from)) == ts[2..] && params < TWO32
    modifies mcf
    ensures |ts| < 4 ==> ret == -1
    ensures |ts| >= 4 ==> ret == FieldVerdict(Expected(params, ts[2], password), ts[3])
  {
    hide *;
    var found, start, next := Field(mcf, from, ts, 2);
    if !found {
      return -1;
    }
    ghost var e := Expected(params, ts[2], password);
    var ok, hash := Rederive(params, CStr(mcf[..], start), password);
    if !ok {
      if |ts| >= 4 { FieldVerdicts(e, ts[3]); }
      return -1;
    }
    found, start, next := Field(mcf, next, ts, 3);
    if !found {
      return -1;
    }
    FieldVerdicts(e, ts[3]);
    ret := SlowEquals(CStr(mcf[..], start), hash);
  }

  // What is stored verifies.

  lemma {:induction false} NoDollar(d: seq<byte>)
    ensures DOLLAR !in Base64.Encode(d)
    ensures d != [] ==> Base64.Encode(d) != ""
  {
    EncodingIsPlain(d);
    EncodeLength(d);
    hide Base64.Encode, Strip;
    if IsDigit(DOLLAR) { AlphabetPlain(Position(Alphabet(), DOLLAR)); }
  }

  /** A string with four plain fields is cut into just those fields. */
  lemma FourTokens(a: string, b: string, c: string, d: string)
    requires DOLLAR !in a && DOLLAR !in b && DOLLAR !in c && DOLLAR !in d
    requires a != "" && b != "" && c != "" && d != ""
    ensures Tokens("$" + (a + ("$" + (b + ("$" + (c + ("$" + d))))))) == [a, b, c, d]
  {
    LastToken(d);
    var w := "$" + d;
    OneToken(c, w, [d]);
    var x := "$" + (c + w);
    OneToken(b, x, [c, d]);
    var y := "$" + (b + x);
    OneToken(a, y, [b, c, d]);
  }

  lemma LastToken(d: string)
    requires d != "" && DOLLAR !in d
    ensures Tokens("$" + d) == [d]
  {
    TokensStep(d, "");
    assert d + "" == d;
  }

  lemma OneToken(t: string, rest: string, more: seq<string>)
    requires t != "" && DOLLAR !in t && rest != "" && rest[0] == DOLLAR && Tokens(rest) == more
    ensures Tokens("$" + (t + rest)) == [t] + more
  {
    TokensStep(t, rest);
  }

  lemma TextTokens(params: nat, salt: string, hash: string)
    requires DOLLAR !in salt && DOLLAR !in hash && salt != "" && hash != ""
    ensures Tokens(Text(params, salt, hash)) == ["s1", Hex(params, 6), salt, hash]
    ensures |Text(params, salt, hash)| >= 3 && Text(params, salt, hash)[..3] == "$s1"
  {
    assert HexValue(DOLLAR) == 16;
    hide Tokens, HexValue, Hex;
    FourTokens("s1", Hex(params, 6), salt, hash);
  }

  /**
   * The string stored for a password is accepted with that password, and with another exactly when
   * the derived keys agree, up to the exponent 30; libscrypt_check refuses it for the exponent 31,
   * which the hashing side admits.
   */
  lemma StoredVerifies(t: nat, r: nat, p: nat, salt: seq<byte>, password: seq<byte>, candidate: seq<byte>)
    requires 1 <= t <= 31 && 1 <= r <= 255 && 1 <= p <= 255 && 1 <= |salt| <= 32
    ensures var key := Scrypt.Key(password, salt, Pow2(t), r, p, 64);
            Verdict(Text(Pack(t, r, p), Base64.Encode(salt), Base64.Encode(key)), candidate)
            == if t > 30 then -1 else if Scrypt.Key(candidate, salt, Pow2(t), r, p, 64) == key then 1 else 0
  {
    assert SAFE_N == 30;
    hide *;
    var params := Pack(t, r, p);
    var key := Scrypt.Key(password, salt, Pow2(t), r, p, 64);
    var other := Scrypt.Key(candidate, salt, Pow2(t), r, p, 64);
    PackRoundTrip(t, r, p);
    NoDollar(salt);
    NoDollar(key);
    VerdictOfText(params, Base64.Encode(salt), Base64.Encode(key), candidate);
    FieldVerdicts(Expected(params, Base64.Encode(salt), candidate), Base64.Encode(key));
    EncodingIsPlain(salt);
    DecodeEncode(salt);
    ExpectedFrom(params, Base64.Encode(salt), candidate, salt);
    EncodeInjective(key, other);
  }

  /**
   * What any string with these fields is worth: nothing if a field is out of range or the salt longer than 32
   * octets, and otherwise the comparison of its last field with the key of the candidate.
   */
  lemma FieldsDecide(t: nat, r: nat, p: nat, salt: seq<byte>, hash: string, candidate: seq<byte>)
    requires t < 0x1_0000 && r <= 255 && p <= 255 && salt != [] && hash != "" && DOLLAR !in hash
    ensures Verdict(Text(Pack(t, r, p), Base64.Encode(salt), hash), candidate)
         == if 1 <= t <= 30 && r >= 1 && p >= 1 && |salt| <= 32 then
              if hash == Base64.Encode(Scrypt.Key(candidate, salt, Pow2(t), r, p, 64)) then 1 else 0
            else -1
  {
    hide *;
    PackRoundTrip(t, r, p);
    NoDollar(salt);
    VerdictOfText(Pack(t, r, p), Base64.Encode(salt), hash, candidate);
    EncodingIsPlain(salt);
    DecodeEncode(salt);
    ExpectedValue(Pack(t, r, p), Base64.Encode(salt), candidate, salt);
    FieldVerdicts(Expected(Pack(t, r, p), Base64.Encode(salt), candidate), hash);
  }

  lemma ExpectedValue(params: nat, saltField: string, password: seq<byte>, salt: seq<byte>)
    requires Base64.Decode(Strip(saltField)) == Data(salt)
    ensures var t, r, p := params / 0x1_0000, params / 256 % 256, params % 256;
            Expected(params, saltField, password)
            == if 1 <= t <= 30 && r >= 1 && p >= 1 && 1 <= |salt| <= 32 then
                 Hash(Base64.Encode(Scrypt.Key(password, salt, Pow2(t), r, p, 64)))
               else Rejected
  {
    hide Base64.Decode, Base64.Encode, Strip, Scrypt.Key, Pow2;
  }

  lemma VerdictOfText(params: nat, salt: string, hash: string, candidate: seq<byte>)
    requires params < TWO32 && DOLLAR !in salt && DOLLAR !in hash && salt != "" && hash != ""
    ensures Verdict(Text(params, salt, hash), candidate) == FieldVerdict(Expected(params, salt, candidate), hash)
  {
    assert TWO32 <= ULONG_MAX && params % TWO32 == params;
    hide *;
    HexRoundTrip(params, 6);
    TextTokens(params, salt, hash);
    VerdictOf(Text(params, salt, hash), candidate, ["s1", Hex(params, 6), salt, hash]);
  }

  /** With an exponent field above 30 the string is refused for every password, whatever the other fields are. */
  lemma FieldRejected(params: nat, salt: string, hash: string, candidate: seq<byte>)
    requires params < TWO32 && params / 0x1_0000 > SAFE_N
    ensures Verdict(Text(params, salt, hash), candidate) == -1
  {
    assert TWO32 <= ULONG_MAX && params % TWO32 == params && HexValue(DOLLAR) == 16;
    hide *;
    HexRoundTrip(params, 6);
    var text := Text(params, salt, hash);
    FieldTokens(params, salt, hash);
    var ts := Tokens(text);
    if |ts| < 4 {
      VerdictFails(text, candidate);
    } else {
      VerdictOf(text, candidate, ts);
      ExpectedRejects(params, ts[2], candidate);
    }
  }

  /** Whatever the salt and the hash are, the second token holds the parameters. */
  lemma FieldTokens(params: nat, salt: string, hash: string)
    ensures var ts := Tokens(Text(params, salt, hash)); |ts| >= 2 && ts[1] == Hex(params, 6)
    ensures |Text(params, salt, hash)| >= 3 && Text(params, salt, hash)[..3] == "$s1"
  {
    assert HexValue(DOLLAR) == 16;
    hide Tokens, HexValue, Hex;
    var rest := "$" + (salt + ("$" + hash));
    OneToken(Hex(params, 6), rest, Tokens(rest));
    var x := "$" + (Hex(params, 6) + rest);
    OneToken("s1", x, Tokens(x));
  }

  /**
   * What comes of an N that is no power of two, 3 for example: libscrypt_mcf misses the failure of
   * scrypt_ilog2 and prints a string, but one that no password is accepted with.
   */
  method MisprintAndCheck(n: nat, r: nat, p: nat, salt: string, hash: string, mcf: array<char>, candidate: seq<byte>)
    returns (ret: int, verdict: int)
    requires n < TWO32 && r <= 255 && p <= 255 && !(n >= 2 && IsPow2(n))
    requires '\0' !in salt && '\0' !in hash && |salt| + |hash| <= 113 && mcf.Length >= MCF_LEN
    modifies mcf
    ensures ret == 1 && verdict == -1
  {
    MisprintedText(r, p, salt, hash);
    hide IsPow2, Pack, Text, CStr, Verdict;
    ret := McfPrint(n, r, p, salt, hash, mcf);
    ghost var t :| IsLog(n, t) && Printed(ret, mcf[..], Text(Pack(t, r, p), salt, hash));
    FieldRejected(Pack(FAILED, r, p), salt, hash, candidate);
    verdict := Check(mcf, candidate);
  }

  lemma MisprintedText(r: nat, p: nat, salt: string, hash: string)
    requires r <= 255 && p <= 255
    ensures Pack(FAILED, r, p) < TWO32 && Pack(FAILED, r, p) / 0x1_0000 > SAFE_N
    ensures |Text(Pack(FAILED, r, p), salt, hash)| <= 14 + |salt| + |hash|
  {
    PackValue(FAILED, r, p, 0xFFFF);
    hide Pack, Hex, Pow16;
    EightDigits(Pack(FAILED, r, p));
    TextLength(Pack(FAILED, r, p), salt, hash);
  }

  lemma EightDigits(x: nat)
    requires x < TWO32
    ensures |Hex(x, 6)| <= 8
  {
    assert Pow16(4) == 0x1_0000;
    assert Pow16(8) == 0x1_0000_0000;
    HexLength(x, 6, 8);
  }

  /** 3 is such a number. */
  lemma ThreeIsNoPower()
    ensures !IsPow2(3)
  {
    forall t: nat
      ensures Pow2(t) != 3
    {
      if t > 0 {
        assert Pow2(t) == 2 * Pow2(t - 1);
      }
    }
  }

  lemma EncodeInjective(d: seq<byte>, e: seq<byte>)
    ensures Base64.Encode(d) == Base64.Encode(e) <==> d == e
  {
    DecodeEncode(d);
    DecodeEncode(e);
    hide Base64.Encode, Base64.Decode;
  }

  // hash_password of blog.cpp.

  /** The 16 random characters with the last one overwritten by NUL. */
  function SaltOf(generated: seq<byte>): (salt: seq<byte>)
    requires |generated| == 16
    ensures |salt| == 16
  {
    generated[15 := 0]
  }

  lemma SaltValue(generated: seq<byte>)
    requires |generated| == 16
    ensures SaltOf(generated) == generated[..15] + [0]
  {
  }

  lemma LimitsAccepted(n: nat, r: nat, p: nat)
    requires n < TWO32 && r <= 255 && p <= 255
    ensures Scrypt.SizesFit(r, p) && n <= Scrypt.SIZE_MAX && r < TWO32 && p < TWO32
    ensures Scrypt.Accepts(n, r, p, 64) <==> n >= 2 && IsPow2(n) && r >= 1 && p >= 1
  {
    Scrypt.McfSizesFit(r, p);
    Scrypt.ProductBound(r, p);
    TableBound(r, n);
    hide IsPow2, Scrypt.SizesFit;
  }

  lemma TextLength(params: nat, salt: string, hash: string)
    ensures |Text(params, salt, hash)| == 6 + |Hex(params, 6)| + |salt| + |hash|
  {
    hide Hex;
  }

  /** With a 16-octet salt and a 64-octet key the text always fits. */
  lemma PrintedWhole(ret: int, mcf: seq<char>, n: nat, t: nat, r: nat, p: nat, salt: seq<byte>, key: seq<byte>)
    requires IsLog(n, t) && n >= 2 && IsPow2(n) && r <= 255 && p <= 255 && |salt| == 16 && |key| == 64
    requires Printed(ret, mcf, Text(Pack(t, r, p), Base64.Encode(salt), Base64.Encode(key)))
    ensures 1 <= t <= 31 && n == Pow2(t) && ret == 1
    ensures CStr(mcf, 0) == Text(Pack(t, r, p), Base64.Encode(salt), Base64.Encode(key))
  {
    hide IsPow2, Pow2, Text, Pack, CStr, Base64.Encode;
    EncodeLength(salt);
    EncodeLength(key);
    SixDigits(t, r, p);
    TextLength(Pack(t, r, p), Base64.Encode(salt), Base64.Encode(key));
  }

  lemma SixDigits(t: nat, r: nat, p: nat)
    requires t <= 31 && r <= 255 && p <= 255
    ensures |Hex(Pack(t, r, p), 6)| == 6
  {
    PackValue(t, r, p, t);
    hide Pack, Hex;
    assert Pow16(3) == 0x1000;
    assert Pow16(6) == 0x100_0000;
    HexLength(Pack(t, r, p), 6, 6);
  }

  /** generated is the outcome of generate_salt: 16 characters, or none when the random source failed. */
  method HashPassword(dst: array<char>, passphrase: seq<byte>, n: nat, r: nat, p: nat, generated: seq<byte>)
    returns (ret: int)
    requires dst.Length >= MCF_LEN && n < TWO32 && r <= 255 && p <= 255 && |generated| in {0, 16}
    modifies dst
    ensures ret == 1 || ret == 0
    ensures ret == 1 <==> generated != [] && n >= 2 && IsPow2(n) && r >= 1 && p >= 1
    ensures ret == 1 ==>
              exists t :: 1 <= t <= 31 && n == Pow2(t)
                && Stores(CStr(dst[..], 0), t, r, p, generated[..15] + [0], passphrase)
  {
    hide *;
    if generated == [] {
      return 0;
    }
    var salt := SaltOf(generated);
    SaltValue(generated);
    var hashbuf := new byte[64];
    LimitsAccepted(n, r, p);
    var retval, overrun := Scrypt.Derive(passphrase, salt, n, r, p, hashbuf);
    if r >= 1 { Scrypt.OverrunsIff(r, p); }
    if retval == -1 {
      return 0;
    }
    var outbuf, saltbuf := new char[256], new char[256];
    var hashLength := B64Encode(hashbuf[..], outbuf);
    if hashLength == -1 {
      assert false;
    }
    var saltLength := B64Encode(salt, saltbuf);
    if saltLength == -1 {
      assert false;
    }
    EncodingIsPlain(salt);
    EncodingIsPlain(hashbuf[..]);
    ret := McfPrint(n, r, p, saltbuf[..saltLength], outbuf[..hashLength], dst);
    ghost var t :| IsLog(n, t)
                && Printed(ret, dst[..], Text(Pack(t, r, p), Base64.Encode(salt), Base64.Encode(hashbuf[..])));
    PrintedWhole(ret, dst[..], n, t, r, p, salt, hashbuf[..]);
    if ret != 1 {
      assert false;
    }
    StoresText(CStr(dst[..], 0), t, r, p, salt, passphrase);
  }

  /** The stored string of a password. */
  ghost predicate Stores(text: string, t: nat, r: nat, p: nat, salt: seq<byte>, password: seq<byte>)
    requires r >= 1
  {
    text == Text(Pack(t, r, p), Base64.Encode(salt), Base64.Encode(Scrypt.Key(password, salt, Pow2(t), r, p, 64)))
  }

  lemma StoresText(text: string, t: nat, r: nat, p: nat, salt: seq<byte>, password: seq<byte>)
    requires r >= 1
    ensures Stores(text, t, r, p, salt, password)
        <==> text == Text(Pack(t, r, p), Base64.Encode(salt),
                          Base64.Encode(Scrypt.Key(password, salt, Pow2(t), r, p, 64)))
  {
    hide Base64.Encode, Text, Pack, Scrypt.Key, Pow2;
  }

  /** Hashing a password and checking a candidate against the stored string. */
  method StoreAndCheck(dst: array<char>, password: seq<byte>, n: nat, r: nat, p: nat, generated: seq<byte>,
                       candidate: seq<byte>)
    returns (stored: int, verdict: int)
    requires dst.Length >= MCF_LEN && n < TWO32 && r <= 255 && p <= 255 && |generated| in {0, 16}
    modifies dst
    ensures stored == 1 <==> generated != [] && n >= 2 && IsPow2(n) && r >= 1 && p >= 1
    ensures stored == 1 ==>
              var salt := generated[..15] + [0];
              var key, other := Scrypt.Key(password, salt, n, r, p, 64), Scrypt.Key(candidate, salt, n, r, p, 64);
              verdict == if n > 0x4000_0000 then -1 else if other == key then 1 else 0
  {
    assert MCF_LEN == 128;
    hide *;
    verdict := -1;
    stored := HashPassword(dst, password, n, r, p, generated);
    if stored == 1 {
      var salt := SaltOf(generated);
      SaltValue(generated);
      ghost var t :| 1 <= t <= 31 && n == Pow2(t) && Stores(CStr(dst[..], 0), t, r, p, salt, password);
      StoresText(CStr(dst[..], 0), t, r, p, salt, password);
      StoredVerifies(t, r, p, salt, password, candidate);
      LargeExponent(t);
      verdict := Check(dst, candidate);
    }
  }

  lemma LargeExponent(t: nat)
    ensures t > 30 <==> Pow2(t) > 0x4000_0000
  {
    Pow2Monotone(30, t);
    Pow2Monotone(t, 30);
    assert Pow2(10) == 1024;
    Smix.Pow2Adds(10, 10);
    Smix.Pow2Adds(20, 10);
  }
}
