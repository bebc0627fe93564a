/** The C library calls of the MCF code: NUL-terminated strings, strtok_r, strtoul and the %06x conversion. */
module CStrings {

  /** The string that starts at position i of a buffer. */
  function CStr(s: seq<char>, i: nat): (t: string)
    ensures '\0' !in t
    ensures i + |t| <= |s| || t == ""
    decreases |s| - i
  {
    if i < |s| && s[i] != '\0' then [s[i]] + CStr(s, i + 1) else ""
  }

  lemma {:induction false} CStrSlice(s: seq<char>, i: nat, n: nat)
    requires i + n <= |s| && forall k :: i <= k < i + n ==> s[k] != '\0'
    requires i + n == |s| || s[i + n] == '\0'
    ensures CStr(s, i) == s[i..i + n]
    decreases n
  {
    if n > 0 {
      CStrSlice(s, i + 1, n - 1);
      assert s[i..i + n] == [s[i]] + s[i + 1..i + n];
    }
  }

  /** Only what lies at and after i matters. */
  lemma {:induction false} CStrDepends(s: seq<char>, t: seq<char>, i: nat)
    requires |s| == |t| && forall k :: i <= k < |s| ==> s[k] == t[k]
    ensures CStr(s, i) == CStr(t, i)
    decreases |s| - i
  {
    if i < |s| { CStrDepends(s, t, i + 1); }
  }

  lemma {:induction false} CStrShift(s: seq<char>, i: nat)
    requires i < |s|
    ensures CStr(s, i + 1) == CStr(s[1..], i)
    decreases |s| - i
  {
    if i + 1 < |s| { CStrShift(s, i + 1); }
  }

  /** The first character goes on with the string of the rest, or ends it. */
  lemma CStrCons(s: seq<char>)
    requires s != []
    ensures CStr(s, 0) == if s[0] == '\0' then "" else [s[0]] + CStr(s[1..], 0)
  {
    CStrShift(s, 0);
  }

  /** A string without NUL is all of its C string. */
  lemma CStrWhole(s: seq<char>)
    requires '\0' !in s
    ensures CStr(s, 0) == s
  {
    CStrSlice(s, 0, |s|);
  }

  lemma CStrPrefix(s: seq<char>)
    ensures |CStr(s, 0)| <= |s| && CStr(s, 0) == s[..|CStr(s, 0)|]
  {
    CStrIsSlice(s, 0);
  }

  lemma {:induction false} CStrIsSlice(s: seq<char>, i: nat)
    requires i <= |s|
    ensures i + |CStr(s, i)| <= |s| && CStr(s, i) == s[i..i + |CStr(s, i)|]
    decreases |s| - i
  {
    if i < |s| && s[i] != '\0' {
      CStrIsSlice(s, i + 1);
    }
  }

  const DOLLAR: char := '$'

  /** The maximal runs without a dollar sign: what repeated calls of strtok_r(., "$") deliver. */
  function Tokens(s: string): seq<string>
    decreases |s|
  {
    if s == "" then []
    else if s[0] == DOLLAR then Tokens(s[1..])
    else [Run(s)] + Tokens(s[|Run(s)|..])
  }

  /** The longest prefix without a dollar sign. */
  function Run(s: string): (r: string)
    ensures |r| <= |s| && r == s[..|r|] && DOLLAR !in r
    ensures s != "" && s[0] != DOLLAR ==> r != ""
    ensures |r| < |s| ==> s[|r|] == DOLLAR
  {
    if s == "" || s[0] == DOLLAR then "" else [s[0]] + Run(s[1..])
  }

  /** A token followed by a separator, or by nothing, is delivered whole. */
  lemma {:induction false} RunOf(t: string, rest: string)
    requires DOLLAR !in t && (rest == "" || rest[0] == DOLLAR)
    ensures Run(t + rest) == t
  {
    if t == "" {
      assert t + rest == rest;
    } else {
      RunOf(t[1..], rest);
      assert (t + rest)[1..] == t[1..] + rest;
    }
  }

  lemma TokensStep(t: string, rest: string)
    requires t != "" && DOLLAR !in t && (rest == "" || rest[0] == DOLLAR)
    ensures Tokens(t + rest) == [t] + Tokens(rest)
    ensures Tokens([DOLLAR] + (t + rest)) == [t] + Tokens(rest)
  {
    RunOf(t, rest);
    assert (t + rest)[|t|..] == rest;
    assert ([DOLLAR] + (t + rest))[1..] == t + rest;
  }

  /** strtok_r(., "$", &saveptr) on a buffer whose saved position is from. */
  method StrTok(buf: array<char>, from: nat) returns (found: bool, start: nat, next: nat)
    requires from <= buf.Length
    modifies buf
    ensures found <==> Tokens(old(CStr(buf[..], from))) != []
    ensures found ==> from <= start <= next <= buf.Length
                      && [CStr(buf[..], start)] + Tokens(CStr(buf[..], next)) == Tokens(old(CStr(buf[..], from)))
  {
    hide *;
    start := SkipDollars(buf, from);
    if start == buf.Length || buf[start] == '\0' {
      NoToken(buf[..], start);
      return false, start, start;
    }
    var end := start;
    while end < buf.Length && buf[end] != '\0' && buf[end] != DOLLAR
      invariant start <= end <= buf.Length
      invariant forall k :: start <= k < end ==> buf[k] != '\0' && buf[k] != DOLLAR
      invariant buf[..] == old(buf[..])
    {
      end := end + 1;
    }
    ghost var s := buf[..];
    if end < buf.Length && buf[end] == DOLLAR {
      buf[end] := '\0';
      next := end + 1;
    } else {
      next := end;
    }
    CutToken(s, buf[..], start, end, next);
    return true, start, next;
  }

  method SkipDollars(buf: array<char>, from: nat) returns (start: nat)
    requires from <= buf.Length
    ensures from <= start <= buf.Length && (start == buf.Length || buf[start] != DOLLAR)
    ensures Tokens(CStr(buf[..], start)) == Tokens(CStr(buf[..], from))
  {
    start := from;
    while start < buf.Length && buf[start] == DOLLAR
      invariant from <= start <= buf.Length
      invariant Tokens(CStr(buf[..], start)) == Tokens(CStr(buf[..], from))
    {
      assert CStr(buf[..], start)[1..] == CStr(buf[..], start + 1);
      start := start + 1;
    }
  }

  lemma NoToken(s: seq<char>, i: nat)
    requires i == |s| || (i < |s| && s[i] == '\0')
    ensures Tokens(CStr(s, i)) == []
  {
  }

  /** Overwriting the separator with NUL leaves the token before it and the rest after it. */
  lemma CutToken(s: seq<char>, t: seq<char>, start: nat, end: nat, next: nat)
    requires start < end <= |s| == |t|
    requires forall k :: start <= k < end ==> s[k] != '\0' && s[k] != DOLLAR
    requires if end < |s| && s[end] == DOLLAR then t == s[end := '\0'] && next == end + 1
             else t == s && next == end && (end == |s| || s[end] == '\0')
    ensures Tokens(CStr(s, start)) == [CStr(t, start)] + Tokens(CStr(t, next))
    ensures Tokens(CStr(s, start)) != []
  {
    hide *;
    FirstToken(s, start, end);
    if end < |s| && s[end] == DOLLAR {
      CutAtDollar(s, t, start, end);
    } else {
      CStrSlice(s, start, end - start);
    }
  }

  lemma CutAtDollar(s: seq<char>, t: seq<char>, start: nat, end: nat)
    requires start < end < |s| && s[end] == DOLLAR && t == s[end := '\0']
    requires forall k :: start <= k < end ==> s[k] != '\0' && s[k] != DOLLAR
    ensures CStr(t, start) == s[start..end] && Tokens(CStr(s, end)) == Tokens(CStr(t, end + 1))
  {
    assert DOLLAR != '\0';
    hide *;
    SameSlice(s, t, start, end);
    CStrSlice(t, start, end - start);
    CStrDepends(s, t, end + 1);
    TokensSkip(CStr(s, end + 1));
    CStrUnfold(s, end);
  }

  lemma FirstToken(s: seq<char>, start: nat, end: nat)
    requires start < end <= |s| && forall k :: start <= k < end ==> s[k] != '\0' && s[k] != DOLLAR
    requires end == |s| || s[end] == DOLLAR || s[end] == '\0'
    ensures Tokens(CStr(s, start)) == [s[start..end]] + Tokens(CStr(s, end))
  {
    assert DOLLAR != '\0';
    hide *;
    CStrAppend(s, start, end);
    CStrUnfold(s, end);
    TokensStep(s[start..end], CStr(s, end));
  }

  lemma SameSlice(s: seq<char>, t: seq<char>, start: nat, end: nat)
    requires start <= end <= |s| == |t| && forall k :: start <= k < end ==> s[k] == t[k]
    ensures s[start..end] == t[start..end]
  {
  }

  lemma CStrUnfold(s: seq<char>, i: nat)
    requires i <= |s|
    ensures CStr(s, i) == if i < |s| && s[i] != '\0' then [s[i]] + CStr(s, i + 1) else ""
  {
  }

  lemma TokensSkip(s: string)
    ensures Tokens([DOLLAR] + s) == Tokens(s)
  {
    assert ([DOLLAR] + s)[1..] == s;
  }

  lemma {:induction false} CStrAppend(s: seq<char>, i: nat, j: nat)
    requires i <= j <= |s| && forall k :: i <= k < j ==> s[k] != '\0'
    ensures CStr(s, i) == s[i..j] + CStr(s, j)
    decreases j - i
  {
    if i < j {
      CStrAppend(s, i + 1, j);
      assert s[i..j] == [s[i]] + s[i + 1..j];
      assert [s[i]] + (s[i + 1..j] + CStr(s, j)) == s[i..j] + CStr(s, j);
    }
  }

  // Hexadecimal numbers.

  /** The digit value of c in base 16, or 16. */
  function HexValue(c: char): (v: nat)
    ensures v <= 16
  {
    if '0' <= c <= '9' then c as int - '0' as int
    else if 'a' <= c <= 'f' then c as int - 'a' as int + 10
    else if 'A' <= c <= 'F' then c as int - 'A' as int + 10
    else 16
  }

  function Accumulate(s: string, acc: nat): nat
  {
    if s == "" || HexValue(s[0]) == 16 then acc else Accumulate(s[1..], 16 * acc + HexValue(s[0]))
  }

  predicate IsSpace(c: char) { c == ' ' || '\t' as int <= c as int <= '\r' as int }

  function SkipSpace(s: string): string
  {
    if s != "" && IsSpace(s[0]) then SkipSpace(s[1..]) else s
  }

  /** A prefix 0x counts as one only in front of a digit. */
  function SkipPrefix(u: string): string
  {
    if |u| > 2 && u[0] == '0' && (u[1] == 'x' || u[1] == 'X') && HexValue(u[2]) < 16 then u[2..] else u
  }

  const ULONG_MAX: int := 0xFFFF_FFFF_FFFF_FFFF

  /** strtoul(s, NULL, 16) with a 64-bit unsigned long. */
  function StrToUl16(s: string): (v: nat)
    ensures v <= ULONG_MAX
  {
    var t := SkipSpace(s);
    var negative := t != "" && t[0] == '-';
    var u := if t != "" && (t[0] == '-' || t[0] == '+') then t[1..] else t;
    var v := Accumulate(SkipPrefix(u), 0);
    if v > ULONG_MAX then ULONG_MAX else if negative && v > 0 then ULONG_MAX + 1 - v else v
  }

  function HexDigit(v: nat): char
    requires v < 16
  {
    if v < 10 then ('0' as int + v) as char else ('a' as int + (v - 10)) as char
  }

  /** The lower-case hexadecimal digits of x, zero-padded to at least w. */
  function Hex(x: nat, w: nat): (s: string)
    ensures |s| >= w && forall c :: c in s ==> HexValue(c) < 16 && c != 'x' && c != 'X'
  {
    if x == 0 && w == 0 then "" else Hex(x / 16, if w > 0 then w - 1 else 0) + [HexDigit(x % 16)]
  }

  /** The digits that are read, in both cases, and those that are written. */
  lemma HexDigitTable(v: nat)
    requires v < 16
    ensures HexDigit(v) == "0123456789abcdef"[v]
    ensures HexValue("0123456789abcdef"[v]) == v && HexValue("0123456789ABCDEF"[v]) == v
  {
  }

  predicate AllHex(s: string) { s != "" && forall i :: 0 <= i < |s| ==> HexValue(s[i]) < 16 }

  predicate AllSpace(s: string) { forall i :: 0 <= i < |s| ==> s[i] == ' ' || 9 <= s[i] as int <= 13 }

  /** A tail that ends the digits d, whatever prefix they have. */
  predicate Ends(prefix: string, d: string, tail: string)
  {
    && (tail != "" ==> HexValue(tail[0]) == 16)
    && !(prefix == "" && d == "0" && |tail| > 1 && (tail[0] == 'x' || tail[0] == 'X') && HexValue(tail[1]) < 16)
  }

  /**
   * White space, a sign, a prefix 0x or none, then the longest run of digits: the sign negates modulo 2^64, and what
   * does not fit is the largest number.
   */
  lemma StrToUl16Reads(space: string, sign: string, prefix: string, d: string, tail: string)
    requires AllSpace(space) && sign in ["", "+", "-"] && prefix in ["", "0x", "0X"] && AllHex(d)
    requires Ends(prefix, d, tail)
    ensures var v := Accumulate(d, 0);
            StrToUl16(space + (sign + (prefix + (d + tail))))
            == if v > 0xFFFF_FFFF_FFFF_FFFF then 0xFFFF_FFFF_FFFF_FFFF
               else if sign == "-" && v > 0 then 0x1_0000_0000_0000_0000 - v else v
  {
    hide Accumulate, SkipSpace, SkipPrefix, HexValue, IsSpace;
    NoSigns(d);
    var n := prefix + (d + tail);
    PrefixSkipped(prefix, d, tail);
    SignSkipped(sign, n);
    SpaceSkipped(space, sign + n);
    AccumulateStops(d, tail, 0);
  }

  lemma PrefixSkipped(prefix: string, d: string, tail: string)
    requires prefix in ["", "0x", "0X"] && AllHex(d) && Ends(prefix, d, tail)
    ensures var n := prefix + (d + tail);
            SkipPrefix(n) == d + tail && n != "" && !IsSpace(n[0]) && n[0] != '-' && n[0] != '+'
  {
    NoSigns(d);
    hide HexValue;
    var n := prefix + (d + tail);
    if prefix == "" {
      assert n == d + tail && n[0] == d[0];
    } else {
      assert n[2..] == d + tail && n[2] == d[0] && n[0] == '0';
    }
  }

  lemma SignSkipped(sign: string, n: string)
    requires sign in ["", "+", "-"] && n != "" && !IsSpace(n[0]) && n[0] != '-' && n[0] != '+'
    ensures var t := sign + n;
            && t != "" && !IsSpace(t[0]) && (t[0] == '-' <==> sign == "-")
            && (if t[0] == '-' || t[0] == '+' then t[1..] else t) == n
  {
    if sign == "" {
      assert sign + n == n;
    } else {
      assert (sign + n)[1..] == n;
    }
  }

  lemma NoSigns(d: string)
    requires AllHex(d)
    ensures !IsSpace(d[0]) && d[0] != '-' && d[0] != '+' && d[0] != 'x' && d[0] != 'X'
    ensures |d| > 1 ==> d[1] != 'x' && d[1] != 'X'
    ensures HexValue('x') == HexValue('X') == 16
  {
  }

  lemma {:induction false} SpaceSkipped(space: string, u: string)
    requires AllSpace(space) && u != "" && !IsSpace(u[0])
    ensures SkipSpace(space + u) == u
  {
    if space == "" {
      assert space + u == u;
    } else {
      SpaceSkipped(space[1..], u);
      assert (space + u)[1..] == space[1..] + u;
    }
  }

  lemma {:induction false} AccumulateStops(d: string, tail: string, acc: nat)
    requires (forall i :: 0 <= i < |d| ==> HexValue(d[i]) < 16) && (tail != "" ==> HexValue(tail[0]) == 16)
    ensures Accumulate(d + tail, acc) == Accumulate(d, acc)
  {
    hide HexValue;
    if d == "" {
      assert d + tail == tail;
    } else {
      AccumulateStops(d[1..], tail, 16 * acc + HexValue(d[0]));
      assert (d + tail)[1..] == d[1..] + tail;
    }
  }

  lemma {:induction false} HexLength(x: nat, w: nat, n: nat)
    requires w <= n && x < Pow16(n)
    ensures |Hex(x, w)| <= n
  {
    if n > 0 && (x > 0 || w > 0) {
      HexLength(x / 16, if w > 0 then w - 1 else 0, n - 1);
    }
  }

  function Pow16(n: nat): nat { if n == 0 then 1 else 16 * Pow16(n - 1) }

  lemma {:induction false} AccumulateSnoc(s: string, c: char, acc: nat)
    requires (forall x :: x in s ==> HexValue(x) < 16) && HexValue(c) < 16
    ensures Accumulate(s + [c], acc) == 16 * Accumulate(s, acc) + HexValue(c)
  {
    if s == "" {
      assert (s + [c])[1..] == "";
    } else {
      assert (s + [c])[1..] == s[1..] + [c];
      AccumulateSnoc(s[1..], c, 16 * acc + HexValue(s[0]));
    }
  }

  lemma {:induction false} AccumulateHex(x: nat, w: nat)
    ensures Accumulate(Hex(x, w), 0) == x
    decreases x, w
  {
    if x > 0 || w > 0 {
      var v := if w > 0 then w - 1 else 0;
      AccumulateHex(x / 16, v);
      AccumulateSnoc(Hex(x / 16, v), HexDigit(x % 16), 0);
    }
  }

  /** Printing a number in hexadecimal and parsing it back returns it. */
  lemma HexRoundTrip(x: nat, w: nat)
    requires x <= ULONG_MAX && w >= 1
    ensures StrToUl16(Hex(x, w)) == x
  {
    AccumulateHex(x, w);
    var s := Hex(x, w);
    assert s[0] in s && (|s| > 1 ==> s[1] in s);
  }
}
