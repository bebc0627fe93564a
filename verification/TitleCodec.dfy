/**
 * Post ids (src/blog.h): a title is escaped into an id, and an id taken from a URL is unescaped.
 * A char stands for one byte of a std::string.
 */
module TitleCodec {
  import CStrings

  predicate Bytes(s: string)
  {
    forall i :: 0 <= i < |s| ==> s[i] as int < 256
  }

  predicate IsDropped(c: char) { c in "%._<>\"~" }

  predicate IsAlnum(c: char)
  {
    '0' <= c <= '9' || 'A' <= c <= 'Z' || 'a' <= c <= 'z'
  }

  /** What the id keeps of a title: some punctuation is lost and a space becomes a hyphen. */
  function Normal(t: string): string
  {
    if t == "" then ""
    else (if IsDropped(t[0]) then "" else if t[0] == ' ' then "-" else [t[0]]) + Normal(t[1..])
  }

  /** Percent, then two upper-case hexadecimal digits. */
  function Escape(c: char): string
    requires c as int < 256
  {
    ['%', UpperDigit(c as int / 16), UpperDigit(c as int % 16)]
  }

  function UpperDigit(v: nat): (c: char)
    requires v < 16
    ensures CStrings.HexValue(c) == v && c !in "xX+- "
  {
    "0123456789ABCDEF"[v]
  }

  function EncodeChar(c: char): string
    requires c as int < 256
  {
    if IsDropped(c) then ""
    else if c == ' ' then "-"
    else if IsAlnum(c) || c == '-' then [c]
    else Escape(c)
  }

  function Encode(t: string): string
    requires Bytes(t)
  {
    if t == "" then "" else EncodeChar(t[0]) + Encode(t[1..])
  }

  /** The number that reading a hexadecimal int from these characters gives; a partial number is enough. */
  function ReadHex(s: string): (v: Number)
  {
    var u := CStrings.SkipSpace(s);
    var negative := u != "" && u[0] == '-';
    var d := if u != "" && (u[0] == '-' || u[0] == '+') then u[1..] else u;
    var e := if |d| >= 2 && d[0] == '0' && (d[1] == 'x' || d[1] == 'X') then d[2..] else d;
    if e == "" || CStrings.HexValue(e[0]) == 16 then NotANumber
    else
      var n: int := CStrings.Accumulate(e, 0);
      Value(if negative then -n else n)
  }

  datatype Number = Value(v: int) | NotANumber

  /** Conversion of an int to char keeps the low eight bits. */
  function LowByte(v: int): char { (v % 256) as char }

  /** Everything up to a percent sign that is not followed by two characters starting a number. */
  function Decode(s: string): string
    decreases |s|
  {
    if s == "" then ""
    else if s[0] == '%' then
      if |s| < 3 || ReadHex(s[1..3]).NotANumber? then "" else [LowByte(ReadHex(s[1..3]).v)] + Decode(s[3..])
    else [if s[0] == '+' then ' ' else s[0]] + Decode(s[1..])
  }

  /** A title of letters, digits and hyphens is its own id. */
  lemma {:induction false} PlainTitle(t: string)
    requires forall i :: 0 <= i < |t| ==> IsAlnum(t[i]) || t[i] == '-'
    ensures Bytes(t) && Encode(t) == t && Normal(t) == t
  {
    if t != "" {
      PlainTitle(t[1..]);
      assert t == [t[0]] + t[1..];
    }
  }

  /** An escape is a percent sign and the two digits of the byte in upper case. */
  lemma EscapeDigits(c: char)
    requires c as int < 256
    ensures var e := Escape(c);
            && |e| == 3 && e[0] == '%' && 16 * CStrings.HexValue(e[1]) + CStrings.HexValue(e[2]) == c as int
            && ('0' <= e[1] <= '9' || 'A' <= e[1] <= 'F') && ('0' <= e[2] <= '9' || 'A' <= e[2] <= 'F')
  {
    hide CStrings.HexValue;
    UpperCase(c as int / 16);
    UpperCase(c as int % 16);
  }

  lemma UpperCase(v: nat)
    requires v < 16
    ensures var c := UpperDigit(v); '0' <= c <= '9' || 'A' <= c <= 'F'
  {
  }

  /**
   * What the two characters behind a percent sign are read as: two digits, one digit before something else, or one
   * digit behind white space or a sign; the prefix 0x alone is no number.
   */
  lemma ReadTwo(x: char, y: char)
    ensures var p: int, q: int := CStrings.HexValue(x), CStrings.HexValue(y);
            ReadHex([x, y])
            == if p < 16 && q < 16 then Value(16 * p + q)
               else if p < 16 then if x == '0' && (y == 'x' || y == 'X') then NotANumber else Value(p)
               else if q == 16 then NotANumber
               else if x == '-' then Value(-q)
               else if x == '+' || x == ' ' || 9 <= x as int <= 13 then Value(q)
               else NotANumber
  {
    var s := [x, y];
    assert s[1..] == [y] && [y][1..] == [] && s[2..] == [];
    var p, q := CStrings.HexValue(x), CStrings.HexValue(y);
    assert CStrings.Accumulate([y], 0) == if q < 16 then q else 0;
    assert p < 16 ==> CStrings.Accumulate([y], p) == if q < 16 then 16 * p + q else p;
    assert p < 16 ==> CStrings.Accumulate(s, 0) == CStrings.Accumulate([y], p);
    assert CStrings.SkipSpace([y]) == if CStrings.IsSpace(y) then [] else [y];
    assert CStrings.SkipSpace(s) == if CStrings.IsSpace(x) then CStrings.SkipSpace([y]) else s;
    hide CStrings.Accumulate, CStrings.SkipSpace;
  }

  lemma ReadEscape(c: char)
    requires c as int < 256
    ensures ReadHex(Escape(c)[1..]) == Value(c as int) && LowByte(c as int) == c
  {
    hide CStrings.HexValue, CStrings.IsSpace, CStrings.Accumulate;
    var v := c as int;
    var hi, lo := UpperDigit(v / 16), UpperDigit(v % 16);
    assert Escape(c)[1..] == [hi, lo];
    NotSpace(v / 16);
    TwoDigits(hi, lo);
  }

  lemma TwoDigits(hi: char, lo: char)
    requires CStrings.HexValue(hi) < 16 && CStrings.HexValue(lo) < 16
    ensures CStrings.Accumulate([hi, lo], 0) == 16 * CStrings.HexValue(hi) + CStrings.HexValue(lo)
  {
    hide CStrings.HexValue;
    assert [hi, lo][1..] == [lo] && [lo][1..] == [];
    assert CStrings.Accumulate([hi, lo], 0) == CStrings.Accumulate([lo], CStrings.HexValue(hi));
  }

  lemma NotSpace(v: nat)
    requires v < 16
    ensures !CStrings.IsSpace(UpperDigit(v))
  {
  }

  lemma DecodeChar(c: char, rest: string)
    requires c as int < 256
    ensures Decode(EncodeChar(c) + rest) == Normal([c]) + Decode(rest)
  {
    assert Normal([c]) == (if IsDropped(c) then "" else if c == ' ' then "-" else [c]) by {
      assert [c][1..] == "";
    }
    var s := EncodeChar(c) + rest;
    if IsDropped(c) {
      assert s == rest;
    } else if c == ' ' || IsAlnum(c) || c == '-' {
      assert s[1..] == rest;
    } else {
      ReadEscape(c);
      assert s[1..3] == Escape(c)[1..] && s[3..] == rest;
    }
  }

  lemma Nothing()
    ensures Decode("") == "" && Normal("") == ""
  {
  }

  lemma NormalUnfold(t: string)
    requires t != ""
    ensures Normal(t) == Normal([t[0]]) + Normal(t[1..])
  {
    assert [t[0]][1..] == "";
  }

  /** Decoding the id of a title gives the title's normal form. */
  lemma {:induction false} DecodeEncode(t: string)
    requires Bytes(t)
    ensures Decode(Encode(t)) == Normal(t)
  {
    hide Decode, EncodeChar, IsDropped, Normal;
    if t == "" {
      Nothing();
    } else {
      DecodeEncode(t[1..]);
      DecodeChar(t[0], Encode(t[1..]));
      NormalUnfold(t);
    }
  }

  /** Encoding sees no more of a title than its normal form. */
  lemma {:induction false} EncodeNormal(t: string)
    requires Bytes(t)
    ensures Bytes(Normal(t)) && Encode(Normal(t)) == Encode(t)
  {
    if t != "" {
      EncodeNormal(t[1..]);
      var c, n := t[0], Normal(t[1..]);
      if !IsDropped(c) {
        var h := if c == ' ' then '-' else c;
        assert Normal(t) == [h] + n && ([h] + n)[1..] == n;
        assert EncodeChar(h) == EncodeChar(c);
      } else {
        assert Normal(t) == n;
      }
    }
  }

  /** Cutting at the first NUL and normalising commute; a NUL is kept by normalising. */
  lemma {:induction false} NormalCut(t: string)
    ensures Normal(CStrings.CStr(t, 0)) == CStrings.CStr(Normal(t), 0)
    ensures '\0' in Normal(t) <==> '\0' in t
  {
    hide CStrings.CStr;
    if t != "" {
      var u := t[1..];
      assert t == [t[0]] + u;
      NormalCut(u);
      CStrings.CStrCons(t);
      if IsDropped(t[0]) {
        CutDropped(t[0], CStrings.CStr(u, 0));
        assert Normal(t) == Normal(u);
      } else {
        NormalCons(t[0], u);
        CStrings.CStrCons(Normal(t));
        NormalCons(t[0], CStrings.CStr(u, 0));
      }
    } else {
      CStrings.CStrWhole("");
    }
  }

  lemma CutDropped(c: char, u: string)
    requires IsDropped(c)
    ensures Normal([c] + u) == Normal(u)
  {
    assert ([c] + u)[1..] == u;
  }

  lemma NormalCons(c: char, u: string)
    requires !IsDropped(c)
    ensures Normal([c] + u) == [if c == ' ' then '-' else c] + Normal(u)
    ensures Normal([c] + u)[1..] == Normal(u)
  {
    assert ([c] + u)[1..] == u;
  }

  /** Two titles get the same id exactly when their normal forms are the same. */
  lemma SameIdIffSameNormal(s: string, t: string)
    requires Bytes(s) && Bytes(t)
    ensures Encode(s) == Encode(t) <==> Normal(s) == Normal(t)
  {
    DecodeEncode(s);
    DecodeEncode(t);
    EncodeNormal(s);
    EncodeNormal(t);
  }

  /** An id holds only letters, digits, hyphens and percent signs, so it can stand in a URL path. */
  lemma {:induction false} IdIsPlain(t: string)
    requires Bytes(t)
    ensures forall c :: c in Encode(t) ==> IsAlnum(c) || c == '-' || c == '%'
  {
    if t != "" {
      IdIsPlain(t[1..]);
      assert forall v: nat :: v < 16 ==> IsAlnum(UpperDigit(v));
    }
  }

  // The loops of the source.

  lemma Associate(a: string, b: string, c: string)
    ensures a + (b + c) == a + b + c
  {
  }

  lemma {:induction false} EncodeSnoc(t: string, c: char)
    requires Bytes(t) && c as int < 256
    ensures Bytes(t + [c]) && Encode(t + [c]) == Encode(t) + EncodeChar(c)
  {
    hide EncodeChar;
    if t == "" {
      assert t + [c] == [c] && [c][1..] == "";
    } else {
      EncodeSnoc(t[1..], c);
      assert (t + [c])[1..] == t[1..] + [c];
      Associate(EncodeChar(t[0]), Encode(t[1..]), EncodeChar(c));
    }
  }

  lemma EncodeNothing(t: string)
    ensures Encode(t[..0]) == ""
  {
    assert t[..0] == "";
  }

  lemma EncodeMore(t: string, i: nat)
    requires Bytes(t) && i < |t|
    ensures Bytes(t[..i + 1]) && Encode(t[..i + 1]) == Encode(t[..i]) + EncodeChar(t[i])
  {
    hide Encode, EncodeChar;
    assert t[..i + 1] == t[..i] + [t[i]];
    EncodeSnoc(t[..i], t[i]);
  }

  /** One turn of the decoding loop. */
  lemma DecodeStep(s: string, i: nat)
    requires i < |s|
    ensures if s[i] == '%' then
              if i + 3 > |s| || ReadHex(s[i + 1..i + 3]).NotANumber? then Decode(s[i..]) == ""
              else Decode(s[i..]) == [LowByte(ReadHex(s[i + 1..i + 3]).v)] + Decode(s[i + 3..])
            else Decode(s[i..]) == [if s[i] == '+' then ' ' else s[i]] + Decode(s[i + 1..])
  {
    hide ReadHex, LowByte;
    var u := s[i..];
    if s[i] == '%' {
      if i + 3 <= |s| {
        assert u[1..3] == s[i + 1..i + 3] && u[3..] == s[i + 3..];
      }
    } else {
      assert u[1..] == s[i + 1..];
    }
  }

  method TitleEncode(value: string) returns (escaped: string)
    requires Bytes(value)
    ensures escaped == Encode(value)
  {
    hide Encode;
    escaped := "";
    var i := 0;
    EncodeNothing(value);
    while i < |value|
      invariant i <= |value| && Bytes(value[..i]) && escaped == Encode(value[..i])
    {
      var c := value[i];
      EncodeMore(value, i);
      i := i + 1;
      if c == '%' || c == '.' || c == '_' || c == '<' || c == '>' || c == '"' || c == '~' {
        continue;
      }
      if c == ' ' {
        escaped := escaped + ['-'];
        continue;
      }
      if IsAlnum(c) || c == '-' {
        escaped := escaped + [c];
        continue;
      }
      escaped := escaped + ['%'] + [UpperDigit(c as int / 16), UpperDigit(c as int % 16)];
    }
    assert value[..i] == value;
  }

  method UriDecode(s: string) returns (out: string)
    ensures out == Decode(s)
  {
    hide Decode, ReadHex, LowByte;
    out := "";
    var i := 0;
    assert s[0..] == s;
    while i < |s|
      invariant i <= |s| && Decode(s) == out + Decode(s[i..])
    {
      DecodeStep(s, i);
      if s[i] == '%' {
        if i + 3 <= |s| {
          var number := ReadHex(s[i + 1..i + 3]);
          if number.Value? {
            out := out + [LowByte(number.v)];
            i := i + 2;
          } else {
            return;
          }
        } else {
          return;
        }
      } else if s[i] == '+' {
        out := out + [' '];
      } else {
        out := out + [s[i]];
      }
      i := i + 1;
    }
    DecodeNothing(s);
  }

  lemma DecodeNothing(s: string)
    ensures Decode(s[|s|..]) == ""
  {
  }
}
