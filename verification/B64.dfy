/** libscrypt_b64_encode and libscrypt_b64_decode of b64.cpp, against the reference in Base64.dfy. */
module B64 {
  import opened Words
  import opened Base64
  import opened CStrings

  /** Four digits appended to the target. */
  method Put(target: array<char>, at: nat, q: string)
    requires |q| == 4 && at + 4 <= target.Length
    modifies target
    ensures target[..at + 4] == old(target[..at]) + q
  {
    target[at], target[at + 1], target[at + 2], target[at + 3] := q[0], q[1], q[2], q[3];
  }

  /** The digits of lines 137-147, or of lines 157-169 when only k - 1 octets are left. */
  function CodedQuantum(a: byte, b: byte, c: byte, k: nat): (q: string)
    requires 2 <= k <= 4
    ensures |q| == 4 && q == Quantum(a, b, c, k)
  {
    SextetsAsCoded(a, b, c);
    SextetsSmall(a, b, c);
    [Digit(S0(a)), Digit(S1(a, b)), if k > 2 then Digit(S2(b, c)) else PAD, if k > 3 then Digit(S3(c)) else PAD]
  }

  /** libscrypt_b64_encode: -1 exactly when the target is too small for the digits and a NUL. */
  method B64Encode(src: seq<byte>, target: array<char>) returns (ret: int)
    modifies target
    ensures ret == -1 <==> target.Length < (|src| + 2) / 3 * 4 + 1
    ensures ret != -1 ==> ret == |Base64.Encode(src)| < target.Length
                          && target[..ret] == Base64.Encode(src) && target[ret] == '\0'
  {
    hide *;
    EncodeLength(src);
    EncodeEmpty(src);
    var pos, datalength := 0, 0;
    ghost var q := 0;
    while 2 < |src| - pos
      invariant pos == 3 * q <= |src| && datalength == 4 * q <= target.Length
      invariant target[..datalength] == Base64.Encode(src[..pos])
    {
      Quanta(|src|, q + 1);
      if datalength + 4 > target.Length {
        return -1;
      }
      EncodeStep(src, pos);
      Put(target, datalength, CodedQuantum(src[pos], src[pos + 1], src[pos + 2], 4));
      datalength := datalength + 4;
      pos := pos + 3;
      q := q + 1;
    }
    Quanta(|src|, q);
    if pos < |src| {
      if datalength + 4 > target.Length {
        return -1;
      }
      EncodeLast(src, pos);
      var k := |src| - pos;
      Put(target, datalength, CodedQuantum(src[pos], if k == 2 then src[pos + 1] else 0, 0, k + 1));
      datalength := datalength + 4;
    } else {
      assert src[..pos] == src;
    }
    if datalength >= target.Length {
      return -1;
    }
    Terminate(target, datalength);
    return datalength;
  }

  /** How many characters q quanta leave to write. */
  lemma Quanta(n: nat, q: nat)
    requires 3 * q <= n
    ensures 4 * q <= (n + 2) / 3 * 4 && (n == 3 * q ==> (n + 2) / 3 * 4 == 4 * q)
    ensures 3 * q < n <= 3 * q + 2 ==> (n + 2) / 3 * 4 == 4 * q + 4
  {
  }

  lemma EncodeEmpty(src: seq<byte>)
    ensures Base64.Encode(src[..0]) == ""
  {
  }

  method Terminate(target: array<char>, n: nat)
    requires n < target.Length
    modifies target
    ensures target[..n] == old(target[..n]) && target[n] == '\0'
  {
    target[n] := '\0';
  }

  lemma EncodeStep(src: seq<byte>, pos: nat)
    requires pos + 3 <= |src| && pos % 3 == 0
    ensures Base64.Encode(src[..pos + 3])
         == Base64.Encode(src[..pos]) + Quantum(src[pos], src[pos + 1], src[pos + 2], 4)
  {
    hide Quantum;
    var t := [src[pos], src[pos + 1], src[pos + 2]];
    EncodeAppend(src[..pos], t);
    assert src[..pos + 3] == src[..pos] + t;
    assert Base64.Encode(t) == Quantum(t[0], t[1], t[2], 4) + Base64.Encode([]);
  }

  lemma EncodeLast(src: seq<byte>, pos: nat)
    requires |src| - 2 <= pos < |src| && pos % 3 == 0
    ensures var k := |src| - pos;
            Base64.Encode(src)
            == Base64.Encode(src[..pos]) + Quantum(src[pos], if k == 2 then src[pos + 1] else 0, 0, k + 1)
  {
    hide *;
    EncodeAppend(src[..pos], src[pos..]);
    assert src == src[..pos] + src[pos..];
    EncodeTail(src[pos..]);
  }

  lemma EncodeTail(t: seq<byte>)
    requires 1 <= |t| <= 2
    ensures Base64.Encode(t) == Quantum(t[0], if |t| == 2 then t[1] else 0, 0, |t| + 1)
  {
    hide Quantum;
  }

  // Decoding.

  /** The input without white space. */
  function Strip(s: string): (t: string)
    ensures forall c :: c in t ==> c in s && !IsSpace(c)
  {
    if s == "" then "" else if IsSpace(s[0]) then Strip(s[1..]) else [s[0]] + Strip(s[1..])
  }

  lemma StripStep(s: string, i: nat)
    requires i < |s|
    ensures Strip(s[i..]) == (if IsSpace(s[i]) then [] else [s[i]]) + Strip(s[i + 1..])
  {
    assert s[i..][1..] == s[i + 1..];
  }

  lemma StripEmpty()
    ensures Strip("") == ""
  {
  }

  /** White space, digits and padding stand at the same places. */
  ghost predicate SameShape(src: string, g: string)
  {
    && |g| == |src|
    && forall k :: 0 <= k < |src| ==>
         IsSpace(g[k]) == IsSpace(src[k]) && IsDigit(g[k]) == IsDigit(src[k]) && (g[k] == PAD <==> src[k] == PAD)
  }

  /** The loop that passes over white space, lines 269-271 and 284-286. */
  method SkipSpaces(src: string, from: nat, ghost g: string) returns (i: nat)
    requires from <= |src| && SameShape(src, g)
    ensures from <= i <= |src| && Strip(g[i..]) == Strip(g[from..])
    ensures i < |src| ==> !IsSpace(g[i]) && Strip(g[i..]) == [g[i]] + Strip(g[i + 1..])
    ensures i == |src| ==> Strip(g[from..]) == ""
  {
    hide Strip, IsDigit, IsSpace;
    StripEmpty();
    i := from;
    while i < |src| && IsSpace(src[i])
      invariant from <= i <= |src| && Strip(g[i..]) == Strip(g[from..])
    {
      StripStep(g, i);
      i := i + 1;
    }
    if i < |src| { StripStep(g, i); }
  }

  /** What the target holds between digits: the octets done, then the bits of the partial quantum p. */
  ghost predicate Slots(t: seq<byte>, done: seq<byte>, p: string)
  {
    && |p| < 4 && Digits(p, |p|) && |done| <= |t| && t[..|done|] == done
    && (|p| >= 1 ==> |done| < |t|)
    && (|p| == 1 ==> t[|done|] == Value(p[0]) << 2)
    && (|p| >= 2 ==> t[|done|] == B0(Value(p[0]), Value(p[1])))
    && (|p| == 2 ==> Spill(t, |done| + 1, (Value(p[1]) & 0x0f) << 4))
    && (|p| == 3 ==> |done| + 1 < |t| && t[|done| + 1] == B1(Value(p[1]), Value(p[2]))
                     && Spill(t, |done| + 2, (Value(p[2]) & 0x03) << 6))
  }

  /** Bits left over for the next octet are stored if there is room, and are zero if there is none. */
  ghost predicate Spill(t: seq<byte>, i: nat, bits: byte)
  {
    if i < |t| then t[i] == bits else bits == 0
  }

  /** tarindex in each state. */
  function Filled(state: nat): nat { if state < 2 then 0 else state - 1 }

  /** The decoder has read src[..i]: what remains to decode continues the partial quantum. */
  ghost predicate Reading(src: string, i: nat, done: seq<byte>, p: string)
  {
    i <= |src| && Base64.Decode(Strip(src)) == Prepend(done, Base64.Decode(p + Strip(src[i..])))
  }

  /** The answer the reference decoder prescribes for a target of n octets. */
  function Answer(src: string, n: nat): int
  {
    match Base64.Decode(Strip(src))
    case Malformed => -1
    case Data(d) => if |d| <= n then |d| else -1
  }

  // Why each early return of -1 is right.

  /** A character that is neither a digit nor padding spoils its quantum. */
  lemma BadCharacter(p: string, c: char, rest: string)
    requires |p| < 4 && !IsDigit(c) && (c != PAD || |p| < 2)
    ensures Base64.Decode(p + [c] + rest).Malformed?
  {
    var s := p + [c] + rest;
    assert s[|p|] == c;
    hide IsDigit, Value, B0, B1, B2;
  }

  /** A digit stands for bits of an octet that must fit; and so do nonzero spilled bits. */
  lemma NeedsOctets(p: string, c: char, rest: string)
    requires |p| < 4 && IsDigit(c) && Base64.Decode(p + [c] + rest).Data?
    ensures var d := Base64.Decode(p + [c] + rest).octets;
            && |d| >= 1 && |d| >= |p|
            && (|p| == 1 && Value(c) & 0x0f != 0 ==> |d| >= 2)
            && (|p| == 2 && Value(c) & 0x03 != 0 ==> |d| >= 3)
  {
    var s := p + [c] + rest;
    assert s[|p|] == c;
    NotDigits(PAD);
    hide IsDigit, Value, B0, B1, B2;
    var tail := Base64.Decode(s[4..]);
  }

  /** The octets of a complete quantum. */
  function Triple(q: string): (t: seq<byte>)
    requires |q| == 4 && Digits(q, 4)
    ensures |t| == 3
  {
    [B0(Value(q[0]), Value(q[1])), B1(Value(q[1]), Value(q[2])), B2(Value(q[2]), Value(q[3]))]
  }

  /** The conditions under which a digit is refused, lines 209, 217-224, 231-238 and 245. */
  predicate Refused(n: nat, state: nat, tarindex: nat, v: byte)
  {
    || tarindex >= n
    || (state == 1 && tarindex + 1 >= n && (v & 0x0f) << 4 != 0)
    || (state == 2 && tarindex + 1 >= n && (v & 0x03) << 6 != 0)
  }

  /** What the switch of lines 206-252 leaves in the target when it does not refuse. */
  function Stored(t: seq<byte>, state: nat, tarindex: nat, v: byte): (u: seq<byte>)
    requires state < 4 && tarindex < |t|
    ensures |u| == |t|
  {
    match state
    case 0 => t[tarindex := v << 2]
    case 1 => WithNext(t[tarindex := t[tarindex] | (v >> 4)], tarindex, (v & 0x0f) << 4)
    case 2 => WithNext(t[tarindex := t[tarindex] | (v >> 2)], tarindex, (v & 0x03) << 6)
    case _ => t[tarindex := t[tarindex] | v]
  }

  function WithNext(t: seq<byte>, i: nat, nextbyte: byte): (u: seq<byte>)
    ensures |u| == |t|
  {
    if i + 1 < |t| then t[i + 1 := nextbyte] else t
  }

  lemma SlotsStep(t: seq<byte>, done: seq<byte>, p: string, c: char)
    requires IsDigit(c) && Slots(t, done, p)
    requires !Refused(|t|, |p|, |done| + Filled(|p|), Value(c))
    ensures var u := Stored(t, |p|, |done| + Filled(|p|), Value(c));
            if |p| < 3 then Slots(u, done, p + [c])
            else |done| + 3 <= |t| && u[..|done| + 3] == done + Triple(p + [c])
  {
    hide IsDigit, Value;
    if |p| == 0 {
      SlotsStep0(t, done, c);
    } else if |p| == 1 {
      SlotsStep1(t, done, p, c);
    } else if |p| == 2 {
      SlotsStep2(t, done, p, c);
    } else {
      var u := Stored(t, 3, |done| + 2, Value(c));
      assert u[..|done| + 3] == done + [u[|done|], u[|done| + 1], u[|done| + 2]];
    }
  }

  lemma SlotsStep0(t: seq<byte>, done: seq<byte>, c: char)
    requires IsDigit(c) && Slots(t, done, "") && |done| < |t|
    ensures Slots(t[|done| := Value(c) << 2], done, [c])
  {
    hide IsDigit, Value;
  }

  lemma SlotsStep1(t: seq<byte>, done: seq<byte>, p: string, c: char)
    requires IsDigit(c) && |p| == 1 && Slots(t, done, p) && !Refused(|t|, 1, |done|, Value(c))
    ensures Slots(Stored(t, 1, |done|, Value(c)), done, p + [c])
  {
    hide IsDigit, Value;
    KeepsDone(t, Stored(t, 1, |done|, Value(c)), done);
  }

  lemma SlotsStep2(t: seq<byte>, done: seq<byte>, p: string, c: char)
    requires IsDigit(c) && |p| == 2 && Slots(t, done, p) && !Refused(|t|, 2, |done| + 1, Value(c))
    ensures Slots(Stored(t, 2, |done| + 1, Value(c)), done, p + [c])
  {
    hide IsDigit, Value;
    KeepsDone(t, Stored(t, 2, |done| + 1, Value(c)), done);
  }

  lemma KeepsDone(t: seq<byte>, u: seq<byte>, done: seq<byte>)
    requires |done| <= |t| == |u| && t[..|done|] == done
    requires forall k :: 0 <= k < |done| ==> u[k] == t[k]
    ensures u[..|done|] == done
  {
  }

  /** The switch of lines 206-252. */
  method StoreDigit(target: array<byte>, state: nat, tarindex: nat, c: char) returns (ok: bool)
    requires IsDigit(c) && state < 4
    modifies target
    ensures ok == !Refused(target.Length, state, tarindex, Value(c))
    ensures ok ==> target[..] == Stored(old(target[..]), state, tarindex, Value(c))
  {
    hide IsDigit, Value;
    var v := Value(c);
    if tarindex >= target.Length {
      return false;
    }
    match state {
      case 0 =>
        target[tarindex] := v << 2;
      case 1 =>
        target[tarindex] := target[tarindex] | (v >> 4);
        ok := StoreNext(target, tarindex, (v & 0x0f) << 4);
        return;
      case 2 =>
        target[tarindex] := target[tarindex] | (v >> 2);
        ok := StoreNext(target, tarindex, (v & 0x03) << 6);
        return;
      case _ =>
        target[tarindex] := target[tarindex] | v;
    }
    return true;
  }

  method StoreNext(target: array<byte>, tarindex: nat, nextbyte: byte) returns (ok: bool)
    modifies target
    ensures ok <==> tarindex + 1 < target.Length || nextbyte == 0
    ensures ok ==> target[..] == WithNext(old(target[..]), tarindex, nextbyte)
  {
    if tarindex + 1 < target.Length {
      target[tarindex + 1] := nextbyte;
    } else if nextbyte != 0 {
      return false;
    }
    return true;
  }

  /** Why refusing a digit is right: the octets would not fit. */
  lemma RefusalIsRight(src: string, i: nat, n: nat, done: seq<byte>, p: string)
    requires i < |src| && |p| < 4 && Reading(src, i, done, p) && !IsSpace(src[i]) && IsDigit(src[i])
    requires Refused(n, |p|, |done| + Filled(|p|), Value(src[i]))
    ensures Answer(src, n) == -1
  {
    hide Base64.Decode, IsDigit, Value, Strip;
    StripStep(src, i);
    var rest := Strip(src[i + 1..]);
    assert p + Strip(src[i..]) == p + [src[i]] + rest;
    if Base64.Decode(p + [src[i]] + rest).Data? {
      NeedsOctets(p, src[i], rest);
      ShiftedZero(Value(src[i]));
    }
  }

  lemma ShiftedZero(v: byte)
    ensures (v & 0x0f) << 4 != 0 ==> v & 0x0f != 0
    ensures (v & 0x03) << 6 != 0 ==> v & 0x03 != 0
  {
  }

  lemma BadIsRight(src: string, i: nat, n: nat, done: seq<byte>, p: string)
    requires i < |src| && |p| < 4 && Reading(src, i, done, p) && !IsSpace(src[i])
    requires !IsDigit(src[i]) && (src[i] != PAD || |p| < 2)
    ensures Answer(src, n) == -1
  {
    hide Base64.Decode, IsDigit, Strip;
    StripStep(src, i);
    var rest := Strip(src[i + 1..]);
    assert p + Strip(src[i..]) == p + [src[i]] + rest;
    BadCharacter(p, src[i], rest);
  }

  lemma ReadSpace(src: string, i: nat, done: seq<byte>, p: string)
    requires i < |src| && Reading(src, i, done, p) && IsSpace(src[i])
    ensures Reading(src, i + 1, done, p)
  {
    hide Base64.Decode, Strip;
    StripStep(src, i);
    assert [] + Strip(src[i + 1..]) == Strip(src[i + 1..]);
  }

  lemma ReadDigit(src: string, i: nat, done: seq<byte>, p: string)
    requires i < |src| && |p| < 4 && Reading(src, i, done, p) && !IsSpace(src[i])
    requires Digits(p, |p|) && IsDigit(src[i])
    ensures Digits(p + [src[i]], |p| + 1)
    ensures if |p| < 3 then Reading(src, i + 1, done, p + [src[i]])
            else Reading(src, i + 1, done + Triple(p + [src[i]]), "")
  {
    hide Base64.Decode, IsDigit, Strip;
    StripStep(src, i);
    var rest := Strip(src[i + 1..]);
    assert p + Strip(src[i..]) == (p + [src[i]]) + rest;
    if |p| == 3 {
      DecodeQuantum(p + [src[i]], rest);
      assert "" + rest == rest;
      PrependTwice(done, Triple(p + [src[i]]), Base64.Decode(rest));
    }
  }

  lemma DecodeQuantum(q: string, rest: string)
    requires |q| == 4 && Digits(q, 4)
    ensures Base64.Decode(q + rest) == Prepend(Triple(q), Base64.Decode(rest))
  {
    hide IsDigit, Value, B0, B1, B2;
    assert (q + rest)[4..] == rest;
    assert Digits(q + rest, 4);
  }

  lemma PrependTwice(x: seq<byte>, y: seq<byte>, r: Decoded)
    ensures Prepend(x, Prepend(y, r)) == Prepend(x + y, r)
  {
    if r.Data? { assert x + (y + r.octets) == (x + y) + r.octets; }
  }

  /** The string with every digit replaced by A, whose bits are all zero. */
  function Blank(src: string): (g: string)
    ensures |g| == |src|
  {
    seq(|src|, i requires 0 <= i < |src| => if IsDigit(src[i]) then 'A' else src[i])
  }

  lemma BlankShape(src: string)
    ensures SameShape(src, src) && SameShape(src, Blank(src))
    ensures IsDigit('A') && Value('A') == 0
  {
    BlankDigit();
    NotDigits(PAD);
    hide IsDigit, Value;
    forall k | 0 <= k < |src|
      ensures IsSpace(Blank(src)[k]) == IsSpace(src[k])
    {
      if IsSpace(src[k]) { NotDigits(src[k]); }
    }
  }

  lemma BlankDigit()
    ensures IsDigit('A') && Value('A') == 0
  {
    assert Alphabet()[0] == 'A';
    PositionOf(Alphabet(), 0);
  }

  function Zeroed(n: nat): (t: seq<byte>)
    ensures |t| == n
  {
    seq(n, _ => 0)
  }

  /** What is decoded, and what the target holds; without a target, a blanked input and zeros stand in. */
  ghost predicate Stands(target: array?<byte>, t: seq<byte>, src: string, g: string)
    reads target
  {
    && SameShape(src, g)
    && if target != null then t == target[..] && g == src else t == Zeroed(|src|) && g == Blank(src)
  }

  lemma ShapeAt(src: string, g: string, i: nat)
    requires SameShape(src, g) && i < |src|
    ensures |g| == |src| && IsSpace(g[i]) == IsSpace(src[i]) && IsDigit(g[i]) == IsDigit(src[i])
    ensures g[i] == PAD <==> src[i] == PAD
  {
  }

  /** Storing the bits of an A into zeros changes nothing. */
  lemma ZeroStored(n: nat, state: nat, i: nat)
    requires state < 4 && i < n
    ensures !Refused(n, state, i, 0) && Stored(Zeroed(n), state, i, 0) == Zeroed(n)
  {
    var z: byte := 0;
    assert z << 2 == 0 && z >> 4 == 0 && z >> 2 == 0 && (z & 0x0f) << 4 == 0 && (z & 0x03) << 6 == 0 && z | 0 == 0;
  }

  /** One digit, lines 206-252: its bits are stored, if there is a target. */
  method TakeDigit(src: string, i: nat, target: array?<byte>, state: nat, tarindex: nat,
                   ghost g: string, ghost t: seq<byte>)
    returns (ok: bool, ghost u: seq<byte>)
    requires i < |src| && IsDigit(src[i]) && state < 4 && tarindex <= i && Stands(target, t, src, g)
    modifies target
    ensures |g| == |src| && IsDigit(g[i]) && |u| == |t|
    ensures ok == !Refused(|t|, state, tarindex, Value(g[i]))
    ensures ok ==> Stands(target, u, src, g) && u == Stored(t, state, tarindex, Value(g[i]))
  {
    hide IsDigit, Value, Stored, Refused, SameShape, Blank, Zeroed, IsSpace;
    ShapeAt(src, g, i);
    if target != null {
      ok := StoreDigit(target, state, tarindex, src[i]);
      u := target[..];
    } else {
      BlankAt(src, i);
      ZeroStored(|src|, state, tarindex);
      ok, u := true, t;
    }
  }

  lemma BlankAt(src: string, i: nat)
    requires i < |src| && IsDigit(src[i])
    ensures IsDigit(Blank(src)[i]) && Value(Blank(src)[i]) == 0
  {
    BlankDigit();
    hide IsDigit, Value;
  }

  lemma StandsStart(target: array?<byte>, src: string)
    ensures if target != null then Stands(target, target[..], src, src)
            else Stands(target, Zeroed(|src|), src, Blank(src))
  {
    BlankShape(src);
    hide IsDigit, IsSpace, Blank, Zeroed;
  }

  lemma StandsFor(target: array?<byte>, t: seq<byte>, src: string, g: string)
    requires Stands(target, t, src, g)
    ensures SameShape(src, g)
    ensures if target != null then |t| == target.Length && t == target[..] && g == src
            else |t| == |src| && g == Blank(src)
  {
    hide SameShape, Blank;
  }

  /**
   * libscrypt_b64_decode: with a target the answer of the reference decoder on the input without white space,
   * and its octets; without one the answer for the input with all digits blanked, which is the number of
   * octets with no regard to spare bits and room.
   */
  method B64Decode(src: string, target: array?<byte>) returns (ret: int)
    requires '\0' !in src
    modifies target
    ensures target != null ==> ret == Answer(src, target.Length)
    ensures target != null && ret >= 0 ==> Base64.Decode(Strip(src)) == Data(target[..ret])
    ensures target == null ==> ret == Answer(Blank(src), |src|)
  {
    hide *;
    var state, tarindex, i := 0, 0, 0;
    ghost var done, p := [], "";
    ghost var g := if target != null then src else Blank(src);
    ghost var t := if target != null then target[..] else Zeroed(|src|);
    StandsStart(target, src);
    ReadStart(g, t);
    while i < |src|
      invariant i <= |src| && state == |p| < 4 && tarindex == |done| + Filled(|p|) <= i
      invariant Stands(target, t, src, g) && Reading(g, i, done, p) && Slots(t, done, p)
    {
      var ch := src[i];
      StandsFor(target, t, src, g);
      ShapeAt(src, g, i);
      if IsSpace(ch) {
        ReadSpace(g, i, done, p);
        i := i + 1;
        continue;
      }
      if ch == PAD {
        break;
      }
      if !IsDigit(ch) {
        BadIsRight(g, i, |t|, done, p);
        return -1;
      }
      SlotsDigits(t, done, p);
      ReadDigit(g, i, done, p);
      var ok: bool;
      ghost var u;
      ok, u := TakeDigit(src, i, target, state, tarindex, g, t);
      if !ok {
        RefusalIsRight(g, i, |t|, done, p);
        return -1;
      }
      SlotsStep(t, done, p, g[i]);
      t := u;
      FilledStep(state);
      if state > 0 { tarindex := tarindex + 1; }
      if state < 3 {
        p := p + [g[i]];
        state := state + 1;
      } else {
        done, p := done + Triple(p + [g[i]]), "";
        state := 0;
        SlotsEmpty(t, done);
      }
      i := i + 1;
    }
    StandsFor(target, t, src, g);
    if i < |src| { ShapeAt(src, g, i); }
    ret := Finish(src, i, state, tarindex, target, g, t, done, p);
  }

  lemma ReadStart(src: string, t: seq<byte>)
    ensures Reading(src, 0, [], "") && Slots(t, [], "") && Filled(0) == 0
  {
    hide Base64.Decode, Strip;
    assert src[0..] == src && "" + Strip(src) == Strip(src);
    PrependNothing(Base64.Decode(Strip(src)));
  }

  lemma PrependNothing(r: Decoded)
    ensures Prepend([], r) == r
  {
    if r.Data? { assert [] + r.octets == r.octets; }
  }

  lemma SlotsDigits(t: seq<byte>, done: seq<byte>, p: string)
    requires Slots(t, done, p)
    ensures |p| < 4 && Digits(p, |p|) && |done| <= |t|
  {
  }

  lemma SlotsEmpty(t: seq<byte>, done: seq<byte>)
    requires |done| <= |t| && t[..|done|] == done
    ensures Slots(t, done, "") && Filled(0) == 0
  {
  }

  lemma FilledStep(state: nat)
    requires state < 4
    ensures Filled(0) == 0 && (state < 3 ==> Filled(state + 1) == Filled(state) + if state > 0 then 1 else 0)
    ensures state == 3 ==> Filled(3) == 2
  {
  }

  lemma EndOfString(src: string, t: seq<byte>, done: seq<byte>, p: string)
    requires Reading(src, |src|, done, p) && Slots(t, done, p)
    ensures Answer(src, |t|) == if |p| == 0 then |done| else -1
    ensures |p| == 0 ==> Base64.Decode(Strip(src)) == Data(t[..|done|]) && Filled(0) == 0
  {
    hide IsDigit, Value, Strip;
    StripEmpty();
    assert p + Strip(src[|src|..]) == p;
    assert done + [] == done;
  }

  lemma PadIsNoDigit(src: string, i: nat)
    requires i < |src| && src[i] == PAD
    ensures !IsDigit(src[i]) && !IsSpace(src[i])
  {
    NotDigits(PAD);
  }

  lemma SecondPadMissing(src: string, i: nat, j: nat, n: nat, done: seq<byte>, p: string)
    requires i < j <= |src| && |p| == 2 && Reading(src, i, done, p) && src[i] == PAD
    requires if j == |src| then Strip(src[i + 1..]) == ""
             else src[j] != PAD && Strip(src[i + 1..]) == [src[j]] + Strip(src[j + 1..])
    ensures Answer(src, n) == -1
  {
    hide Value, Strip;
    PadIsNoDigit(src, i);
    hide IsDigit;
    StripStep(src, i);
    var s := p + Strip(src[i..]);
    assert s[2] == PAD && (|s| < 4 || s[3] == src[j]);
  }

  lemma ReadPads(src: string, i: nat, j: nat, done: seq<byte>, p: string, q: string)
    requires i < |src| && i < j <= |src| && Reading(src, i, done, p) && src[i] == PAD
    requires (q == p + [PAD] && Strip(src[i + 1..]) == Strip(src[j..]))
          || (q == p + [PAD, PAD] && Strip(src[i + 1..]) == [PAD] + Strip(src[j..]))
    ensures Reading(src, j, done, q)
  {
    hide Base64.Decode, Strip;
    PadIsNoDigit(src, i);
    StripStep(src, i);
    assert p + Strip(src[i..]) == q + Strip(src[j..]);
  }

  lemma TrailingCharacter(src: string, j: nat, n: nat, done: seq<byte>, q: string)
    requires j < |src| && |q| == 4 && q[3] == PAD && Reading(src, j, done, q)
    requires Strip(src[j..]) == [src[j]] + Strip(src[j + 1..])
    ensures Answer(src, n) == -1
  {
    hide Value, Strip;
    NotDigits(PAD);
    hide IsDigit;
    var s := q + Strip(src[j..]);
    assert |s| > 4 && s[3] == PAD;
  }

  lemma PadsComplete(src: string, t: seq<byte>, j: nat, done: seq<byte>, p: string, q: string)
    requires j <= |src| && 2 <= |p| && Slots(t, done, p) && Reading(src, j, done, q) && Strip(src[j..]) == ""
    requires q == if |p| == 2 then p + [PAD, PAD] else p + [PAD]
    ensures var n := |done| + Filled(|p|);
            && n <= |t| && Answer(src, |t|) == (if n < |t| && t[n] != 0 then -1 else n)
            && (Answer(src, |t|) == n ==> Base64.Decode(Strip(src)) == Data(t[..n]))
  {
    hide *;
    ReadingEnd(src, j, done, q);
    SlotsDigits(t, done, p);
    FilledAtEnd();
    if |p| == 2 {
      PadsComplete2(src, t, done, p);
    } else {
      PadsComplete3(src, t, done, p);
    }
  }

  lemma ReadingEnd(src: string, j: nat, done: seq<byte>, q: string)
    requires Reading(src, j, done, q) && Strip(src[j..]) == ""
    ensures Base64.Decode(Strip(src)) == Prepend(done, Base64.Decode(q))
  {
    hide Strip, Base64.Decode;
    assert q + Strip(src[j..]) == q;
  }

  lemma FilledAtEnd()
    ensures Filled(2) == 1 && Filled(3) == 2
  {
  }

  lemma PadsComplete2(src: string, t: seq<byte>, done: seq<byte>, p: string)
    requires |p| == 2 && Slots(t, done, p)
    requires Base64.Decode(Strip(src)) == Prepend(done, Base64.Decode(p + [PAD, PAD]))
    ensures var n := |done| + 1;
            && n <= |t| && Answer(src, |t|) == (if n < |t| && t[n] != 0 then -1 else n)
            && (Answer(src, |t|) == n ==> Base64.Decode(Strip(src)) == Data(t[..n]))
  {
    hide Strip, Base64.Decode, IsDigit, Value, B0, B1;
    NotDigits(PAD);
    SlotsDigits(t, done, p);
    ShiftedZeroIff(Value(p[1]));
    DecodePadded2(p);
    assert t[..|done| + 1] == done + [t[|done|]];
  }

  lemma PadsComplete3(src: string, t: seq<byte>, done: seq<byte>, p: string)
    requires |p| == 3 && Slots(t, done, p)
    requires Base64.Decode(Strip(src)) == Prepend(done, Base64.Decode(p + [PAD]))
    ensures var n := |done| + 2;
            && n <= |t| && Answer(src, |t|) == (if n < |t| && t[n] != 0 then -1 else n)
            && (Answer(src, |t|) == n ==> Base64.Decode(Strip(src)) == Data(t[..n]))
  {
    hide Strip, Base64.Decode, IsDigit, Value, B0, B1;
    NotDigits(PAD);
    SlotsDigits(t, done, p);
    ShiftedZeroIff(Value(p[2]));
    DecodePadded3(p);
    assert t[..|done| + 2] == done + [t[|done|], t[|done| + 1]];
  }

  lemma DecodePadded2(p: string)
    requires |p| == 2 && Digits(p, 2) && !IsDigit(PAD)
    ensures Base64.Decode(p + [PAD, PAD])
         == if Value(p[1]) & 0x0f == 0 then Data([B0(Value(p[0]), Value(p[1]))]) else Malformed
  {
    hide IsDigit, Value, B0;
    var s := p + [PAD, PAD];
    assert s[0] == p[0] && s[1] == p[1] && s[2] == PAD;
  }

  lemma DecodePadded3(p: string)
    requires |p| == 3 && Digits(p, 3) && !IsDigit(PAD)
    ensures Base64.Decode(p + [PAD])
         == if Value(p[2]) & 0x03 == 0 then Data([B0(Value(p[0]), Value(p[1])), B1(Value(p[1]), Value(p[2]))])
            else Malformed
  {
    hide IsDigit, Value, B0, B1;
    var s := p + [PAD];
    assert s[0] == p[0] && s[1] == p[1] && s[2] == p[2] && s[3] == PAD;
  }

  lemma ShiftedZeroIff(v: byte)
    ensures (v & 0x0f) << 4 == 0 <==> v & 0x0f == 0
    ensures (v & 0x03) << 6 == 0 <==> v & 0x03 == 0
  {
  }

  /** Lines 260-307: padding, trailing characters and spare bits. */
  method Finish(src: string, i: nat, state: nat, tarindex: nat, target: array?<byte>,
                ghost g: string, ghost t: seq<byte>, ghost done: seq<byte>, ghost p: string)
    returns (ret: int)
    requires state == |p| < 4 && tarindex == |done| + Filled(|p|) && Stands(target, t, src, g)
    requires Reading(g, i, done, p) && Slots(t, done, p)
    requires i <= |src| && (i < |src| ==> src[i] == PAD)
    ensures ret == Answer(g, |t|)
    ensures ret >= 0 ==> ret <= |t| && Base64.Decode(Strip(g)) == Data(t[..ret])
  {
    hide *;
    StandsFor(target, t, src, g);
    ShapeLength(src, g);
    if i == |src| {
      EndOfString(g, t, done, p);
      SlotsDigits(t, done, p);
      return if state != 0 then -1 else tarindex;
    }
    ShapeAt(src, g, i);
    PadIsNoDigit(g, i);
    if state < 2 {
      BadIsRight(g, i, |t|, done, p);
      return -1;
    }
    var j := i + 1;
    if state == 2 {
      j := SkipSpaces(src, i + 1, g);
      if j < |src| { ShapeAt(src, g, j); }
      if j == |src| || src[j] != PAD {
        SecondPadMissing(g, i, j, |t|, done, p);
        return -1;
      }
      j := j + 1;
    }
    ghost var q := if state == 2 then p + [PAD, PAD] else p + [PAD];
    j := SkipSpaces(src, j, g);
    ReadPads(g, i, j, done, p, q);
    if j < |src| {
      TrailingCharacter(g, j, |t|, done, q);
      return -1;
    }
    PadsComplete(g, t, j, done, p, q);
    if target != null {
      if tarindex < target.Length && target[tarindex] != 0 {
        return -1;
      }
    } else {
      NothingSpare(target, t, src, g);
    }
    return tarindex;
  }

  lemma ShapeLength(src: string, g: string)
    requires SameShape(src, g)
    ensures |g| == |src|
  {
  }

  lemma NothingSpare(target: array?<byte>, t: seq<byte>, src: string, g: string)
    requires Stands(target, t, src, g) && target == null
    ensures forall k :: 0 <= k < |t| ==> t[k] == 0
  {
    hide SameShape, Blank;
  }

  // What the answer means.

  /** The decoder accepts exactly the canonical encodings, up to white space, of octets that fit. */
  lemma AcceptsCanonical(src: string, n: nat)
    ensures Answer(src, n) >= 0 <==> exists d :: Strip(src) == Base64.Encode(d) && |d| <= n
    ensures forall d :: Strip(src) == Base64.Encode(d) && |d| <= n ==> Answer(src, n) == |d|
  {
    hide Base64.Encode, Base64.Decode, Strip;
    forall d ensures Base64.Decode(Strip(src)) == Data(d) <==> Strip(src) == Base64.Encode(d) {
      DecodeIffEncode(Strip(src), d);
    }
  }

  /** The bits of the last digit that padding leaves unused are zero. */
  predicate SpareClear(s: string)
  {
    if |s| > 4 then SpareClear(s[4..])
    else if |s| < 4 || s[3] != PAD then true
    else if s[2] == PAD then IsDigit(s[1]) ==> Value(s[1]) & 0x0f == 0
    else IsDigit(s[2]) ==> Value(s[2]) & 0x03 == 0
  }

  lemma BlankQuantum(s: string)
    requires |s| >= 4
    ensures var g := Blank(s);
            && |g| == |s| && g[4..] == Blank(s[4..]) && Digits(g, 4) == Digits(s, 4) && Digits(g, 3) == Digits(s, 3)
            && Digits(g, 2) == Digits(s, 2) && (g[2] == PAD <==> s[2] == PAD) && (g[3] == PAD <==> s[3] == PAD)
            && forall k :: 0 <= k < 4 && IsDigit(g[k]) ==> Value(g[k]) == 0
  {
    BlankShape(s);
    hide IsDigit, Value, IsSpace;
  }

  /** Blanking the digits changes the verdict only where spare bits are set. */
  lemma {:induction false} BlankDecode(s: string)
    ensures var z := Base64.Decode(Blank(s));
            match Base64.Decode(s)
            case Data(d) => SpareClear(s) && z.Data? && |z.octets| == |d| <= |s|
            case Malformed => z.Malformed? || !SpareClear(s)
    ensures Base64.Decode(Blank(s)).Data? ==> |Base64.Decode(Blank(s)).octets| <= |s|
  {
    hide IsDigit, Value, B0, B1, B2, Blank;
    if |s| >= 4 {
      BlankQuantum(s);
      BlankDecode(s[4..]);
      NotDigits(PAD);
    } else {
      BlankShort(s);
    }
  }

  lemma BlankShort(s: string)
    requires |s| < 4
    ensures |Blank(s)| == |s| && (s == "" ==> Blank(s) == "")
  {
  }

  lemma {:induction false} StripBlank(src: string)
    ensures Strip(Blank(src)) == Blank(Strip(src)) && |Strip(src)| <= |src|
  {
    hide *;
    if src == "" {
      StripEmpty();
      BlankShort("");
    } else {
      var c, u := src[0], src[1..];
      StripBlank(u);
      BlankCons(c, u);
      BlankCons(c, Strip(u));
      StripCons(src);
      StripCons(Blank(src));
      assert [c] + u == src;
      assert [] + Strip(u) == Strip(u) && [] + Blank(Strip(u)) == Blank(Strip(u));
    }
  }

  /** The first character is blanked on its own; white space stays white space. */
  lemma BlankCons(c: char, u: string)
    ensures var b := Blank([c] + u);
            |b| == 1 + |u| && b[1..] == Blank(u) && b == [b[0]] + Blank(u)
    ensures Blank([c] + u)[0] == (if IsDigit(c) then 'A' else c) && IsSpace(Blank([c] + u)[0]) == IsSpace(c)
  {
    if IsSpace(c) { NotDigits(c); }
    hide IsDigit;
  }

  lemma StripCons(s: string)
    requires s != ""
    ensures Strip(s) == (if IsSpace(s[0]) then [] else [s[0]]) + Strip(s[1..])
  {
    hide IsSpace;
  }

  /**
   * With a target the decoder answers the count of the mode without one, if that many octets fit and no spare
   * bit is set, and fails otherwise.
   */
  lemma CountedIff(src: string, n: nat)
    ensures var c := Answer(Blank(src), |src|);
            Answer(src, n) == if 0 <= c <= n && SpareClear(Strip(src)) then c else -1
  {
    hide Strip, Blank, Base64.Decode, SpareClear;
    StripBlank(src);
    BlankDecode(Strip(src));
  }

  /** Two accepted strings decode alike only if they differ in white space. */
  lemma SameOctetsSameDigits(s: string, t: string, n: nat, m: nat)
    requires Answer(s, n) >= 0 && Answer(t, m) >= 0
    ensures Base64.Decode(Strip(s)) == Base64.Decode(Strip(t)) <==> Strip(s) == Strip(t)
  {
    EncodeDecode(Strip(s));
    EncodeDecode(Strip(t));
    hide Base64.Encode, Base64.Decode, Strip;
  }

  /** An encoding is free of white space and of NUL. */
  lemma {:induction false} EncodingIsPlain(d: seq<byte>)
    ensures Strip(Base64.Encode(d)) == Base64.Encode(d)
    ensures forall c :: c in Base64.Encode(d) ==> IsDigit(c) || c == PAD
    ensures '\0' !in Base64.Encode(d)
  {
    PlainDigits(d);
    NotDigits('\0');
    hide Base64.Encode;
    forall c | c in Base64.Encode(d) ensures !IsSpace(c) && c != '\0' {
      if IsSpace(c) { NotDigits(c); }
    }
    StripPlain(Base64.Encode(d));
  }

  lemma {:induction false} PlainDigits(d: seq<byte>)
    ensures forall c :: c in Base64.Encode(d) ==> IsDigit(c) || c == PAD
  {
    hide Quantum, IsDigit, Value;
    if d != [] {
      QuantumPlain(d[0], if |d| > 1 then d[1] else 0, if |d| > 2 then d[2] else 0, if |d| >= 3 then 4 else |d| + 1);
      if |d| >= 3 { PlainDigits(d[3..]); }
    }
  }

  lemma QuantumPlain(a: byte, b: byte, c: byte, k: nat)
    requires 2 <= k <= 4
    ensures forall x :: x in Quantum(a, b, c, k) ==> IsDigit(x) || x == PAD
  {
    QuantumDigits(a, b, c, k);
    hide Quantum, IsDigit, Value, S0, S1, S2, S3;
  }

  lemma {:induction false} StripPlain(s: string)
    requires forall c :: c in s ==> !IsSpace(c)
    ensures Strip(s) == s
  {
    if s != "" { StripPlain(s[1..]); }
  }

  /** Encoding, then decoding into any target that holds the octets, returns them. */
  method RoundTrip(d: seq<byte>, text: array<char>, target: array<byte>) returns (n: int)
    requires text.Length >= (|d| + 2) / 3 * 4 + 1 && target.Length >= |d|
    modifies text, target
    ensures n == |d| && target[..n] == d
  {
    hide *;
    EncodeLength(d);
    var len := B64Encode(d, text);
    var s := text[..len];
    EncodingIsPlain(d);
    AcceptsCanonical(s, target.Length);
    n := B64Decode(s, target);
    DecodeIffEncode(Strip(s), d);
  }
}
