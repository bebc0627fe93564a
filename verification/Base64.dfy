/** Base64: section 4 of RFC 4648, and libscrypt_b64_encode and libscrypt_b64_decode. */
module Base64 {
  import opened Words
  import opened CStrings

  // The encoding as the standard defines it.

  function Range(from: char, n: nat): (s: string)
    requires from as int + n < 256
    ensures |s| == n
  {
    seq(n, i requires 0 <= i < n => (from as int + i) as char)
  }

  /** Table 1: A to Z, a to z, 0 to 9, + and /. */
  function Alphabet(): (s: string)
    ensures |s| == 64
  {
    Range('A', 26) + Range('a', 26) + Range('0', 10) + "+/"
  }

  lemma AlphabetInOrder()
    ensures Alphabet() == "ABCDEFGHIJKLMNOPQRSTUVWXYZ" + "abcdefghijklmnopqrstuvwxyz" + "0123456789" + "+/"
  {
    assert Range('A', 26) == "ABCDEFGHIJKLMNOPQRSTUVWXYZ";
    assert Range('a', 26) == "abcdefghijklmnopqrstuvwxyz";
    assert Range('0', 10) == "0123456789";
  }

  const PAD: char := '='

  /** The k-th of the four 6-bit groups of the 24-bit group a || b || c. */
  function Sextet(a: byte, b: byte, c: byte, k: nat): byte
    requires k < 4
  {
    var g := (a as bv24 << 16) | (b as bv24 << 8) | (c as bv24);
    if k == 0 then ((g >> 18) & 0x3f) as byte
    else if k == 1 then ((g >> 12) & 0x3f) as byte
    else if k == 2 then ((g >> 6) & 0x3f) as byte
    else (g & 0x3f) as byte
  }

  function Digit(v: byte): char
    requires v < 64
  {
    Alphabet()[v as nat]
  }

  lemma SextetsSmall(a: byte, b: byte, c: byte)
    ensures Sextet(a, b, c, 0) < 64 && Sextet(a, b, c, 1) < 64 && Sextet(a, b, c, 2) < 64 && Sextet(a, b, c, 3) < 64
  {
  }

  /** The first k digits of a 24-bit group, padded to four. */
  function Quantum(a: byte, b: byte, c: byte, k: nat): (q: string)
    requires 2 <= k <= 4
    ensures |q| == 4
  {
    SextetsSmall(a, b, c);
    [Digit(Sextet(a, b, c, 0)), Digit(Sextet(a, b, c, 1)),
     if k > 2 then Digit(Sextet(a, b, c, 2)) else PAD,
     if k > 3 then Digit(Sextet(a, b, c, 3)) else PAD]
  }

  function Encode(d: seq<byte>): string
  {
    if d == [] then ""
    else if |d| == 1 then Quantum(d[0], 0, 0, 2)
    else if |d| == 2 then Quantum(d[0], d[1], 0, 3)
    else Quantum(d[0], d[1], d[2], 4) + Encode(d[3..])
  }

  /** Read in base 64, the four digits of a group are the number that its octets spell in base 256. */
  lemma GroupValue(a: byte, b: byte, c: byte)
    ensures 0x4_0000 * (Sextet(a, b, c, 0) as nat) + 0x1000 * (Sextet(a, b, c, 1) as nat)
            + 0x40 * (Sextet(a, b, c, 2) as nat) + Sextet(a, b, c, 3) as nat
         == 0x1_0000 * (a as nat) + 0x100 * (b as nat) + c as nat
  {
    SextetsAsCoded(a, b, c);
    hide Sextet;
    CodedValue(a, b, c);
  }

  lemma CodedValue(a: byte, b: byte, c: byte)
    ensures 0x4_0000 * (S0(a) as nat) + 0x1000 * (S1(a, b) as nat) + 0x40 * (S2(b, c) as nat) + S3(c) as nat
         == 0x1_0000 * (a as nat) + 0x100 * (b as nat) + c as nat
  {
    hide *;
    SplitA(a, b);
    SplitB(b, c);
    SplitC(c);
  }

  lemma SplitA(a: byte, b: byte)
    ensures a as nat == 4 * (S0(a) as nat) + (a & 0x03) as nat
    ensures S1(a, b) as nat == 16 * ((a & 0x03) as nat) + (b >> 4) as nat
  {
  }

  lemma SplitB(b: byte, c: byte)
    ensures b as nat == 16 * ((b >> 4) as nat) + (b & 0x0f) as nat
    ensures S2(b, c) as nat == 4 * ((b & 0x0f) as nat) + (c >> 6) as nat
  {
  }

  lemma SplitC(c: byte)
    ensures c as nat == 64 * ((c >> 6) as nat) + S3(c) as nat
  {
  }

  /** Examples, the first three from section 10 of RFC 4648. */
  lemma EncodeExamples()
    ensures Encode([0x66]) == "Zg==" && Encode([0x66, 0x6f]) == "Zm8="
    ensures Encode([0x66, 0x6f, 0x6f, 0x62, 0x61, 0x72]) == "Zm9v" + "YmFy"
    ensures Encode([0xfb, 0xff]) == "+/8="
  {
    QuantumExamples();
    hide Quantum;
    var d: seq<byte> := [0x66, 0x6f, 0x6f, 0x62, 0x61, 0x72];
    assert d[3..] == [0x62, 0x61, 0x72] && d[3..][3..] == [];
  }

  lemma QuantumExamples()
    ensures Quantum(0x66, 0, 0, 2) == "Zg==" && Quantum(0x66, 0x6f, 0, 3) == "Zm8="
    ensures Quantum(0x66, 0x6f, 0x6f, 4) == "Zm9v" && Quantum(0x62, 0x61, 0x72, 4) == "YmFy"
    ensures Quantum(0xfb, 0xff, 0, 3) == "+/8="
  {
    AlphabetInOrder();
    hide Alphabet;
  }

  lemma {:induction false} EncodeLength(d: seq<byte>)
    ensures |Encode(d)| == (|d| + 2) / 3 * 4
  {
    hide Quantum;
    if |d| > 2 { EncodeLength(d[3..]); }
  }

  lemma {:induction false} EncodeAppend(x: seq<byte>, y: seq<byte>)
    requires |x| % 3 == 0
    ensures Encode(x + y) == Encode(x) + Encode(y)
  {
    hide Quantum;
    if x == [] {
      assert x + y == y;
    } else {
      EncodeAppend(x[3..], y);
      assert (x + y)[3..] == x[3..] + y;
    }
  }

  // The digits, as the code computes and looks them up.

  function S0(a: byte): byte { a >> 2 }

  function S1(a: byte, b: byte): byte { ((a & 0x03) << 4) + (b >> 4) }

  function S2(b: byte, c: byte): byte { ((b & 0x0f) << 2) + (c >> 6) }

  function S3(c: byte): byte { c & 0x3f }

  lemma SextetsAsCoded(a: byte, b: byte, c: byte)
    ensures Sextet(a, b, c, 0) == S0(a) && Sextet(a, b, c, 1) == S1(a, b)
    ensures Sextet(a, b, c, 2) == S2(b, c) && Sextet(a, b, c, 3) == S3(c)
  {
    GroupBits(a, b, c);
  }

  lemma GroupBits(a: byte, b: byte, c: byte)
    ensures var g := (a as bv24 << 16) | (b as bv24 << 8) | (c as bv24);
            && ((g >> 18) & 0x3f) as byte == a >> 2
            && ((g >> 12) & 0x3f) as byte == ((a & 0x03) << 4) + (b >> 4)
            && ((g >> 6) & 0x3f) as byte == ((b & 0x0f) << 2) + (c >> 6)
            && (g & 0x3f) as byte == c & 0x3f
  {
  }

  /** strchr(Base64, c) - Base64, or 64 when c is not in the table. */
  function Position(s: string, c: char): (i: nat)
    ensures i <= |s| && (i < |s| ==> s[i] == c)
  {
    if s == [] || s[0] == c then 0 else 1 + Position(s[1..], c)
  }

  lemma {:induction false} PositionOf(s: string, i: nat)
    requires i < |s|
    requires forall j :: 0 <= j < i ==> s[j] != s[i]
    ensures Position(s, s[i]) == i
  {
    if i > 0 {
      assert s[1..][i - 1] == s[i];
      PositionOf(s[1..], i - 1);
    }
  }

  predicate IsDigit(c: char) { Position(Alphabet(), c) < 64 }

  function Value(c: char): byte
    requires IsDigit(c)
  {
    Position(Alphabet(), c) as byte
  }

  lemma DigitsDistinct(i: nat, j: nat)
    requires i < j < 64
    ensures Alphabet()[i] != Alphabet()[j]
  {
  }

  lemma DigitRoundTrip(v: byte)
    requires v < 64
    ensures IsDigit(Digit(v)) && Value(Digit(v)) == v
  {
    var i := v as nat;
    forall j | 0 <= j < i ensures Alphabet()[j] != Alphabet()[i] { DigitsDistinct(j, i); }
    hide Alphabet;
    PositionOf(Alphabet(), i);
  }

  lemma ValueRoundTrip(c: char)
    requires IsDigit(c)
    ensures Value(c) < 64 && Digit(Value(c)) == c
  {
    hide Alphabet;
  }

  lemma NotDigits(c: char)
    requires IsSpace(c) || c == PAD || c as int == 0
    ensures !IsDigit(c)
  {
    if IsDigit(c) { AlphabetPlain(Position(Alphabet(), c)); }
  }

  lemma AlphabetPlain(i: nat)
    requires i < 64
    ensures var c := Alphabet()[i]; c == '+' || c == '/' || '0' <= c <= '9' || 'A' <= c <= 'Z' || 'a' <= c <= 'z'
  {
  }

  // Decoding: the reference, one quantum at a time.

  function B0(v0: byte, v1: byte): byte { (v0 << 2) | (v1 >> 4) }

  function B1(v1: byte, v2: byte): byte { ((v1 & 0x0f) << 4) | (v2 >> 2) }

  function B2(v2: byte, v3: byte): byte { ((v2 & 0x03) << 6) | v3 }

  datatype Decoded = Malformed | Data(octets: seq<byte>)

  function Prepend(d: seq<byte>, r: Decoded): Decoded
  {
    match r
    case Malformed => Malformed
    case Data(e) => Data(d + e)
  }

  predicate Digits(s: string, k: nat)
  {
    k <= |s| && forall i :: 0 <= i < k ==> IsDigit(s[i])
  }

  function Decode(s: string): Decoded
  {
    if s == "" then Data([])
    else if |s| < 4 then Malformed
    else if Digits(s, 4) then
      Prepend([B0(Value(s[0]), Value(s[1])), B1(Value(s[1]), Value(s[2])), B2(Value(s[2]), Value(s[3]))],
              Decode(s[4..]))
    else if |s| == 4 && Digits(s, 3) && s[3] == PAD && Value(s[2]) & 0x03 == 0 then
      Data([B0(Value(s[0]), Value(s[1])), B1(Value(s[1]), Value(s[2]))])
    else if |s| == 4 && Digits(s, 2) && s[2] == PAD && s[3] == PAD && Value(s[1]) & 0x0f == 0 then
      Data([B0(Value(s[0]), Value(s[1]))])
    else Malformed
  }

  // Bit facts: splitting into sextets and joining them undo each other.

  lemma JoinSplit(a: byte, b: byte, c: byte)
    ensures B0(S0(a), S1(a, b)) == a && B1(S1(a, b), S2(b, c)) == b && B2(S2(b, c), S3(c)) == c
    ensures S1(a, 0) & 0x0f == 0 && S2(b, 0) & 0x03 == 0
    ensures S0(a) < 64 && S1(a, b) < 64 && S2(b, c) < 64 && S3(c) < 64
  {
    SplitBits(a, b, c);
  }

  lemma SplitBits(a: byte, b: byte, c: byte)
    ensures var s0, s1, s2, s3 := a >> 2, ((a & 0x03) << 4) + (b >> 4), ((b & 0x0f) << 2) + (c >> 6), c & 0x3f;
            && (s0 << 2) | (s1 >> 4) == a && ((s1 & 0x0f) << 4) | (s2 >> 2) == b && ((s2 & 0x03) << 6) | s3 == c
            && s0 < 64 && s1 < 64 && s2 < 64 && s3 < 64
    ensures (((a & 0x03) << 4) + (0 as byte >> 4)) & 0x0f == 0 && (((b & 0x0f) << 2) + (0 as byte >> 6)) & 0x03 == 0
  {
  }

  lemma SplitJoin(v0: byte, v1: byte, v2: byte, v3: byte)
    requires v0 < 64 && v1 < 64 && v2 < 64 && v3 < 64
    ensures S0(B0(v0, v1)) == v0 && S1(B0(v0, v1), B1(v1, v2)) == v1
    ensures S2(B1(v1, v2), B2(v2, v3)) == v2 && S3(B2(v2, v3)) == v3
    ensures v1 & 0x0f == 0 ==> S1(B0(v0, v1), 0) == v1
    ensures v2 & 0x03 == 0 ==> S2(B1(v1, v2), 0) == v2
  {
    JoinBits(v0, v1, v2, v3);
  }

  lemma JoinBits(v0: byte, v1: byte, v2: byte, v3: byte)
    requires v0 < 64 && v1 < 64 && v2 < 64 && v3 < 64
    ensures var a, b, c := (v0 << 2) | (v1 >> 4), ((v1 & 0x0f) << 4) | (v2 >> 2), ((v2 & 0x03) << 6) | v3;
            && a >> 2 == v0 && ((a & 0x03) << 4) + (b >> 4) == v1 && ((b & 0x0f) << 2) + (c >> 6) == v2
            && c & 0x3f == v3
            && (v1 & 0x0f == 0 ==> ((a & 0x03) << 4) + (0 as byte >> 4) == v1)
            && (v2 & 0x03 == 0 ==> ((b & 0x0f) << 2) + (0 as byte >> 6) == v2)
  {
  }

  /** What one encoded quantum looks like to the decoder. */
  lemma QuantumDigits(a: byte, b: byte, c: byte, k: nat)
    requires 2 <= k <= 4
    ensures var q := Quantum(a, b, c, k);
            && Digits(q, k) && Value(q[0]) == S0(a) && Value(q[1]) == S1(a, b)
            && (if k > 2 then Value(q[2]) == S2(b, c) else q[2] == PAD)
            && (if k > 3 then Value(q[3]) == S3(c) else q[3] == PAD)
            && !IsDigit(PAD)
  {
    SextetsSmall(a, b, c);
    SextetsAsCoded(a, b, c);
    NotDigits(PAD);
    DigitRoundTrip(Sextet(a, b, c, 0));
    DigitRoundTrip(Sextet(a, b, c, 1));
    DigitRoundTrip(Sextet(a, b, c, 2));
    DigitRoundTrip(Sextet(a, b, c, 3));
    hide Sextet, Digit, IsDigit, Value, S0, S1, S2, S3;
  }

  lemma {:induction false} DecodeEncode(d: seq<byte>)
    ensures Decode(Encode(d)) == Data(d)
  {
    hide Quantum, IsDigit, Value, S0, S1, S2, S3, B0, B1, B2;
    if d != [] {
      var b, c := if |d| > 1 then d[1] else 0, if |d| > 2 then d[2] else 0;
      QuantumDigits(d[0], b, c, if |d| >= 3 then 4 else |d| + 1);
      JoinSplit(d[0], b, c);
      if |d| >= 3 {
        DecodeEncode(d[3..]);
        assert Encode(d)[4..] == Encode(d[3..]);
        assert d == [d[0], b, c] + d[3..];
      }
    }
  }

  /** Only the canonical encoding of d decodes to d. */
  lemma {:induction false} EncodeDecode(s: string)
    ensures Decode(s).Data? ==> s == Encode(Decode(s).octets)
  {
    hide Quantum, IsDigit, Value, B0, B1, B2;
    if |s| >= 4 && Decode(s).Data? {
      if Digits(s, 4) {
        EncodeDecode(s[4..]);
        FullQuantum(s[0], s[1], s[2], s[3]);
        assert Decode(s).octets[3..] == Decode(s[4..]).octets;
        assert s == [s[0], s[1], s[2], s[3]] + s[4..];
      } else if Digits(s, 3) {
        ShortQuantum3(s[0], s[1], s[2]);
        assert s == [s[0], s[1], s[2], PAD];
      } else {
        ShortQuantum2(s[0], s[1]);
        assert s == [s[0], s[1], PAD, PAD];
      }
    }
  }

  lemma FullQuantum(c0: char, c1: char, c2: char, c3: char)
    requires IsDigit(c0) && IsDigit(c1) && IsDigit(c2) && IsDigit(c3)
    ensures var v0, v1, v2, v3 := Value(c0), Value(c1), Value(c2), Value(c3);
            Quantum(B0(v0, v1), B1(v1, v2), B2(v2, v3), 4) == [c0, c1, c2, c3]
  {
    ValueRoundTrip(c0); ValueRoundTrip(c1); ValueRoundTrip(c2); ValueRoundTrip(c3);
    var v0, v1, v2, v3 := Value(c0), Value(c1), Value(c2), Value(c3);
    SplitJoin(v0, v1, v2, v3);
    SextetsAsCoded(B0(v0, v1), B1(v1, v2), B2(v2, v3));
    hide Sextet, Digit, IsDigit, Value, S0, S1, S2, S3, B0, B1, B2;
  }

  lemma ShortQuantum3(c0: char, c1: char, c2: char)
    requires IsDigit(c0) && IsDigit(c1) && IsDigit(c2) && Value(c2) & 0x03 == 0
    ensures var v0, v1, v2 := Value(c0), Value(c1), Value(c2);
            Quantum(B0(v0, v1), B1(v1, v2), 0, 3) == [c0, c1, c2, PAD]
  {
    ValueRoundTrip(c0); ValueRoundTrip(c1); ValueRoundTrip(c2);
    var v0, v1, v2 := Value(c0), Value(c1), Value(c2);
    SplitJoin(v0, v1, v2, 0);
    SextetsAsCoded(B0(v0, v1), B1(v1, v2), 0);
    hide Sextet, Digit, IsDigit, Value, S0, S1, S2, S3, B0, B1, B2;
  }

  lemma ShortQuantum2(c0: char, c1: char)
    requires IsDigit(c0) && IsDigit(c1) && Value(c1) & 0x0f == 0
    ensures var v0, v1 := Value(c0), Value(c1);
            Quantum(B0(v0, v1), 0, 0, 2) == [c0, c1, PAD, PAD]
  {
    ValueRoundTrip(c0); ValueRoundTrip(c1);
    var v0, v1 := Value(c0), Value(c1);
    SplitJoin(v0, v1, 0, 0);
    SextetsAsCoded(B0(v0, v1), 0, 0);
    hide Sextet, Digit, IsDigit, Value, S0, S1, S2, S3, B0, B1, B2;
  }

  /** Decoding inverts encoding, and accepts nothing but encodings. */
  lemma DecodeIffEncode(s: string, d: seq<byte>)
    ensures Decode(s) == Data(d) <==> s == Encode(d)
  {
    DecodeEncode(d);
    EncodeDecode(s);
    hide Encode, Decode;
  }
}
