/**
 Percent-decoding of a request path into a freshly allocated C string
 (section 2.1 of RFC 3986).
 */
module PercentDecoding {

  type Byte = x: int | 0 <= x < 256 witness 0

  const PERCENT: Byte := 37

  predicate IsHex(c: Byte) {
    48 <= c <= 57 || 65 <= c <= 70 || 97 <= c <= 102
  }

  function HexToUint(c: Byte): Byte {
    if 48 <= c <= 57 then c - 48
    else if 65 <= c <= 70 then c - 65 + 10
    else if 97 <= c <= 102 then c - 97 + 10
    else 0
  }

  /** `%` and two hexadecimal digits stand at `i`. */
  predicate EscapeAt(v: seq<Byte>, i: int) {
    0 <= i && i + 2 < |v| && v[i] == PERCENT && IsHex(v[i + 1]) && IsHex(v[i + 2])
  }

  function Octet(hi: Byte, lo: Byte): Byte
    requires IsHex(hi) && IsHex(lo)
  {
    HexToUint(hi) * 16 + HexToUint(lo)
  }

  /** The decoder of section 2.1: every triplet is an octet, anything else stands for itself. */
  function Decode(v: seq<Byte>): seq<Byte> {
    if v == [] then []
    else if EscapeAt(v, 0) then [Octet(v[1], v[2])] + Decode(v[3..])
    else [v[0]] + Decode(v[1..])
  }

  // ---------------------------------------------------------------- what the code computes

  function Width(v: seq<Byte>, i: nat): nat {
    if EscapeAt(v, i) then 3 else 1
  }

  /** Where the scan leaves its loop when it is at `i`; the loop runs while two more bytes follow. */
  function Stop(v: seq<Byte>, i: nat): (k: nat)
    requires i <= |v|
    ensures i <= k <= |v| && |v| - 2 <= k
    decreases |v| - i
  {
    if i < |v| - 2 then Stop(v, i + Width(v, i)) else i
  }

  /** The bytes the loop writes from index `i` on. */
  function Emitted(v: seq<Byte>, i: nat): seq<Byte>
    requires i <= |v|
    decreases |v| - i
  {
    if i < |v| - 2
    then [if EscapeAt(v, i) then Octet(v[i + 1], v[i + 2]) else v[i]] + Emitted(v, i + Width(v, i))
    else []
  }

  /**
   The bytes before the terminator: up to three are copied as they are; more are
   scanned, and the two bytes in memory where the scan stopped are copied after
   them, although the value may end before the second or even the first.
   */
  function Output(v: seq<Byte>, beyond: seq<Byte>): seq<Byte>
    requires |beyond| == 2
  {
    if |v| <= 3 then v
    else var k := Stop(v, 0); Emitted(v, 0) + (v + beyond)[k..k + 2]
  }

  /** The scan has written `done` and is at `i`. */
  ghost predicate OnTrack(v: seq<Byte>, done: seq<Byte>, i: nat) {
    i <= |v| && done + Emitted(v, i) == Emitted(v, 0) && Stop(v, i) == Stop(v, 0)
  }

  lemma ScanStep(memory: seq<Byte>, n: nat, i: nat, done: seq<Byte>, x: Byte, w: nat)
    requires n <= |memory| && i + 2 < n
    requires
      if memory[i] != PERCENT || !IsHex(memory[i + 1]) || !IsHex(memory[i + 2])
      then x == memory[i] && w == 1
      else x == HexToUint(memory[i + 1]) * 16 + HexToUint(memory[i + 2]) && w == 3
    requires OnTrack(memory[..n], done, i)
    ensures OnTrack(memory[..n], done + [x], i + w)
  {
    var v := memory[..n];
    assert v[i] == memory[i] && v[i + 1] == memory[i + 1] && v[i + 2] == memory[i + 2];
    assert done + [x] + Emitted(v, i + w) == done + ([x] + Emitted(v, i + w));
  }

  method Put(res: array<Byte>, j: nat, x: Byte)
    requires j < res.Length
    modifies res
    ensures res[..j + 1] == old(res[..j]) + [x]
  {
    res[j] := x;
  }

  /** The loop: reads at `i`, writes at `j`. */
  method Scan(memory: seq<Byte>, n: nat, res: array<Byte>) returns (i: nat, j: nat)
    requires 3 < n <= |memory| && res.Length == n + 1
    modifies res
    ensures i == Stop(memory[..n], 0)
    ensures j + 2 <= n && res[..j] == Emitted(memory[..n], 0)
  {
    ghost var v, done := memory[..n], [];
    i, j := 0, 0;
    while i < n - 2
      invariant i <= n && j <= i
      invariant i > n - 2 ==> j <= i - 2
      invariant res[..j] == done && OnTrack(v, done, i)
      decreases n - i
    {
      if memory[i] != PERCENT || !IsHex(memory[i + 1]) || !IsHex(memory[i + 2]) {
        ScanStep(memory, n, i, done, memory[i], 1);
        Put(res, j, memory[i]);
        done := done + [memory[i]];
        i, j := i + 1, j + 1;
      } else {
        var x := HexToUint(memory[i + 1]) * 16 + HexToUint(memory[i + 2]);
        ScanStep(memory, n, i, done, x, 3);
        Put(res, j, x);
        done := done + [x];
        i, j := i + 3, j + 1;
      }
    }
    assert done + [] == done;
  }

  /** How many bytes behind a value of more than three bytes the final copy reads. */
  function Overread(v: seq<Byte>): nat {
    if EscapeAt(v, |v| - 3) then 2 else if EscapeAt(v, |v| - 4) then 1 else 0
  }

  /**
   `memory` is what the pointer points at: the value in its first `n` bytes, and
   what lies there behind it, as far as the copy reads.  All writes stay within
   the n + 1 bytes allocated, and the result is terminated.
   */
  method PercentDecode(memory: seq<Byte>, n: nat) returns (res: array<Byte>, len: nat)
    requires n <= |memory| && (n > 3 ==> n + Overread(memory[..n]) <= |memory|)
    ensures res.Length == n + 1 && len <= n && res[len] == 0
    ensures res[..len] == Output(memory[..n], (memory + [0, 0])[n..n + 2])
  {
    res := new Byte[n + 1];
    if n > 3 {
      StopIs(memory[..n]);
      var i, j := Scan(memory, n, res);
      ghost var done := res[..j];
      Put(res, j, memory[i]);
      Put(res, j + 1, memory[i + 1]);
      assert res[..j + 2] == done + [memory[i]] + [memory[i + 1]];
      res[j + 2] := 0;
      len := j + 2;
      CopiedBytes(memory, n, i, done);
    } else {
      for k := 0 to n
        invariant res[..k] == memory[..k]
      {
        res[k] := memory[k];
      }
      res[n] := 0;
      len := n;
    }
  }

  lemma CopiedBytes(memory: seq<Byte>, n: nat, i: nat, done: seq<Byte>)
    requires i <= n <= |memory| && i + 2 <= |memory|
    ensures
      done + [memory[i]] + [memory[i + 1]] == done + (memory[..n] + (memory + [0, 0])[n..n + 2])[i..i + 2]
  {
    var m := memory + [0, 0];
    assert memory[..n] + m[n..n + 2] == m[..n + 2];
    assert m[..n + 2][i..i + 2] == m[i..i + 2] == [memory[i]] + [memory[i + 1]];
    Assoc(done, [memory[i]], [memory[i + 1]]);
  }

  // ---------------------------------------------------------------- when that is right

  /** The scan decodes what it has passed; at most two bytes are left and they are literal. */
  lemma {:induction false} EmittedDecodes(v: seq<Byte>, i: nat)
    requires i <= |v|
    ensures Decode(v[i..]) == Emitted(v, i) + v[Stop(v, i)..]
    decreases |v| - i
  {
    if i < |v| - 2 {
      EmittedDecodes(v, i + Width(v, i));
      assert v[i..][1..] == v[i + 1..] && v[i..][3..] == v[i + 3..];
      assert EscapeAt(v[i..], 0) <==> EscapeAt(v, i);
    } else {
      DecodeShort(v[i..]);
    }
  }

  lemma DecodeShort(v: seq<Byte>)
    requires |v| <= 2
    ensures Decode(v) == v
  {
    if |v| == 2 {
      assert v[1..] == [v[1]] && [v[1]][1..] == [];
      assert v == [v[0]] + [v[1]];
    }
  }

  /** Triplets cannot overlap, so the scan never jumps over the start of one. */
  lemma {:induction false} StopThrough(v: seq<Byte>, i: nat, e: nat)
    requires i <= e && EscapeAt(v, e)
    ensures Stop(v, i) == Stop(v, e)
    decreases e - i
  {
    if i < e {
      StopThrough(v, i + Width(v, i), e);
    }
  }

  /** The scan passes the last two bytes only by a triplet that reaches into them. */
  lemma {:induction false} StopPast(v: seq<Byte>, i: nat)
    requires i <= |v| - 2
    ensures Stop(v, i) > |v| - 2 ==> EscapeAt(v, |v| - 3) || EscapeAt(v, |v| - 4)
    decreases |v| - i
  {
    if i + Width(v, i) <= |v| - 2 {
      StopPast(v, i + Width(v, i));
    }
  }

  /** No triplet reaches into the last two bytes of the value. */
  predicate EndsLiteral(v: seq<Byte>) {
    !EscapeAt(v, |v| - 3) && !EscapeAt(v, |v| - 4)
  }

  /**
   The scan stops two bytes before the end of what the copy reads, which goes
   past the value exactly when a triplet reaches into the last two bytes.
   */
  lemma {:induction false} StopIs(v: seq<Byte>)
    requires |v| > 3
    ensures Stop(v, 0) + 2 == |v| + Overread(v)
    ensures Overread(v) > 0 <==> !EndsLiteral(v)
  {
    StopPast(v, 0);
    if EscapeAt(v, |v| - 3) {
      StopThrough(v, 0, |v| - 3);
    } else if EscapeAt(v, |v| - 4) {
      StopThrough(v, 0, |v| - 4);
    }
  }

  /** The exact condition for the bytes written to be the decoded value. */
  lemma {:induction false} DecodesIffEndsLiteral(v: seq<Byte>, beyond: seq<Byte>)
    requires |beyond| == 2
    ensures Output(v, beyond) == Decode(v) <==> EndsLiteral(v)
  {
    if |v| > 3 {
      var k := Stop(v, 0);
      StopIs(v);
      EmittedDecodes(v, 0);
      assert v[0..] == v;
      if k == |v| - 2 {
        assert (v + beyond)[k..k + 2] == v[k..];
      } else {
        assert |Output(v, beyond)| > |Decode(v)|;
      }
    } else if |v| == 3 {
      DecodeShort(v[1..]);
      assert v == [v[0]] + v[1..];
    } else {
      DecodeShort(v);
    }
  }

  /** A value that is all one triplet is not decoded, and one that ends in a triplet gets extra bytes. */
  lemma DecodingGoesWrong()
    ensures Output([37, 52, 49], [0, 0]) != Decode([37, 52, 49])
    ensures Output([47, 37, 52, 49], [63, 120]) == [47, 65, 63, 120]
  {
    DecodesIffEndsLiteral([37, 52, 49], [0, 0]);
    var v: seq<Byte>, beyond: seq<Byte> := [47, 37, 52, 49], [63, 120];
    assert EscapeAt(v, 1) && !EscapeAt(v, 0);
    assert Stop(v, 1) == 4 && Stop(v, 0) == 4;
    assert Emitted(v, 4) == [] && Emitted(v, 1) == [65];
    assert Emitted(v, 0) == [47, 65];
    assert (v + beyond)[4..6] == beyond;
  }

  // ---------------------------------------------------------------- as a C string

  /** What a caller sees: the bytes up to the first terminator. */
  function CString(s: seq<Byte>): seq<Byte> {
    if s == [] || s[0] == 0 then [] else [s[0]] + CString(s[1..])
  }

  lemma {:induction false} CStringAppend(s: seq<Byte>, t: seq<Byte>)
    requires 0 !in s
    ensures CString(s + t) == s + CString(t)
  {
    if s == [] {
      assert s + t == t;
    } else {
      assert (s + t)[1..] == s[1..] + t;
      CStringAppend(s[1..], t);
    }
  }

  lemma {:induction false} CStringHasNoZero(s: seq<Byte>)
    ensures 0 !in CString(s)
  {
    if s != [] && s[0] != 0 {
      CStringHasNoZero(s[1..]);
    }
  }

  /** A zero byte, or the triplet that stands for one. */
  predicate ZeroAt(v: seq<Byte>, i: int) {
    0 <= i < |v| && (v[i] == 0 || (i + 2 < |v| && v[i] == PERCENT && v[i + 1] == 48 && v[i + 2] == 48))
  }

  lemma ZeroBehind(v: seq<Byte>, w: nat)
    requires w <= |v| && forall i :: 0 <= i < w ==> !ZeroAt(v, i)
    ensures (exists i :: ZeroAt(v, i)) <==> exists i :: ZeroAt(v[w..], i)
  {
    if i :| ZeroAt(v[w..], i) {
      assert ZeroAt(v, i + w);
    }
    if i :| ZeroAt(v, i) {
      assert ZeroAt(v[w..], i - w);
    }
  }

  lemma OctetZero(hi: Byte, lo: Byte)
    requires IsHex(hi) && IsHex(lo)
    ensures Octet(hi, lo) == 0 <==> hi == 48 && lo == 48
  {
  }

  lemma {:induction false} DecodesToZeroIff(v: seq<Byte>)
    ensures 0 in Decode(v) <==> exists i :: ZeroAt(v, i)
  {
    if v != [] && !ZeroAt(v, 0) {
      var w := Width(v, 0);
      if EscapeAt(v, 0) {
        OctetZero(v[1], v[2]);
      }
      assert Decode(v) == [Decode(v)[0]] + Decode(v[w..]) && Decode(v)[0] != 0;
      DecodesToZeroIff(v[w..]);
      ZeroBehind(v, w);
    } else if v != [] {
      assert Decode(v)[0] == 0;
    }
  }

  lemma {:induction false} SeenIfNoZero(v: seq<Byte>, beyond: seq<Byte>)
    requires |beyond| == 2 && 0 !in Decode(v)
    ensures CString(Output(v, beyond)) == Decode(v) <==> EndsLiteral(v) || (|v| > 3 && beyond[0] == 0)
  {
    var d := Decode(v);
    DecodesIffEndsLiteral(v, beyond);
    CStringAppend(d, []);
    assert d + [] == d;
    if !EndsLiteral(v) {
      if |v| > 3 {
        var extra := OutputTail(v, beyond);
        CStringAppend(d, extra);
        assert |CString(extra)| > 0 <==> beyond[0] != 0;
      } else {
        DecodesToZeroIff(v);
        assert 0 !in v by {
          assert forall i :: 0 <= i < |v| ==> !ZeroAt(v, i);
        }
        CStringAppend(v, []);
        assert v + [] == v;
      }
    }
  }

  /**
   The caller sees the decoded value exactly when it has neither a zero byte nor
   `%00`, and no triplet reaches into the last two bytes or the value is long
   enough to be scanned and is followed by a terminator itself.
   */
  lemma {:induction false} CallerSeesDecoded(v: seq<Byte>, beyond: seq<Byte>)
    requires |beyond| == 2
    ensures CString(Output(v, beyond)) == Decode(v) <==>
      (forall i :: !ZeroAt(v, i)) && (EndsLiteral(v) || (|v| > 3 && beyond[0] == 0))
  {
    DecodesToZeroIff(v);
    if 0 in Decode(v) {
      CStringHasNoZero(Output(v, beyond));
    } else {
      SeenIfNoZero(v, beyond);
    }
  }

  lemma DecodeAroundZero()
    ensures Decode([47, 37, 48, 48, 97, 98]) == [47, 0, 97, 98]
  {
    var rest: seq<Byte> := [PERCENT, 48, 48] + [97, 98];
    DecodeShort([97, 98]);
    DecodeTriplet(48, 48, [97, 98]);
    DecodeLiteral(47, rest);
    assert [47] + rest == [47, 37, 48, 48, 97, 98];
  }

  /** `/%00ab` is decoded, and the caller sees `/`. */
  lemma ZeroCutsShort(beyond: seq<Byte>)
    requires |beyond| == 2
    ensures Output([47, 37, 48, 48, 97, 98], beyond) == Decode([47, 37, 48, 48, 97, 98])
    ensures CString(Output([47, 37, 48, 48, 97, 98], beyond)) == [47]
  {
    var v: seq<Byte>, seen: seq<Byte> := [47, 37, 48, 48, 97, 98], [47, 0, 97, 98];
    assert EndsLiteral(v);
    DecodesIffEndsLiteral(v, beyond);
    DecodeAroundZero();
    assert CString(seen) == [47] by {
      assert seen[1..][0] == 0;
    }
  }

  lemma Assoc(a: seq<Byte>, b: seq<Byte>, c: seq<Byte>)
    ensures a + (b + c) == a + b + c
  {
  }

  /** When the scan runs past the last two bytes, the result is the decoded value and then memory. */
  lemma OutputTail(v: seq<Byte>, beyond: seq<Byte>) returns (extra: seq<Byte>)
    requires |beyond| == 2 && |v| > 3 && !EndsLiteral(v)
    ensures Output(v, beyond) == Decode(v) + extra
    ensures extra != [] && extra[0] == beyond[0]
  {
    var k := Stop(v, 0);
    StopIs(v);
    EmittedDecodes(v, 0);
    assert v[0..] == v;
    extra := beyond[..k + 2 - |v|];
    assert (v + beyond)[k..k + 2] == v[k..] + extra;
    Assoc(Emitted(v, 0), v[k..], extra);
  }

  // ---------------------------------------------------------------- round trip

  /** The digit of value `d`: '0' to '9', and then 'a' to 'f' or 'A' to 'F'. */
  function HexDigit(d: nat, small: bool): Byte
    requires d < 16
  {
    if d < 10 then 48 + d else if small then 87 + d else 55 + d
  }

  /** At `i` stand `%` and the digits of `d` and `e`, each in either spelling. */
  ghost predicate Spelled(v: seq<Byte>, i: int, d: int, e: int) {
    && 0 <= i && i + 2 < |v| && v[i] == 37 && 0 <= d < 16 && 0 <= e < 16
    && (v[i + 1] == HexDigit(d, true) || v[i + 1] == HexDigit(d, false))
    && (v[i + 2] == HexDigit(e, true) || v[i + 2] == HexDigit(e, false))
  }

  lemma DigitOf(c: Byte) returns (d: nat)
    requires IsHex(c)
    ensures d < 16 && (c == HexDigit(d, true) || c == HexDigit(d, false))
  {
    d := if c <= 57 then c - 48 else if c <= 70 then c - 55 else c - 87;
  }

  /** The triplets are `%` and two digits in either spelling, and stand for the number the digits make. */
  lemma TripletsAre(v: seq<Byte>, i: int)
    ensures EscapeAt(v, i) <==> exists d, e :: Spelled(v, i, d, e)
    ensures forall d, e :: Spelled(v, i, d, e) ==> Octet(v[i + 1], v[i + 2]) == 16 * d + e
  {
    if EscapeAt(v, i) {
      var d := DigitOf(v[i + 1]);
      var e := DigitOf(v[i + 2]);
      assert Spelled(v, i, d, e);
    }
  }

  /** Which bytes stand for themselves; how the digits of the others are spelled. */
  datatype Style = Style(keep: Byte -> bool, smallHi: Byte -> bool, smallLo: Byte -> bool)

  function Encoded(st: Style, b: Byte): seq<Byte> {
    if st.keep(b) then [b] else [PERCENT, HexDigit(b / 16, st.smallHi(b)), HexDigit(b % 16, st.smallLo(b))]
  }

  function Encode(st: Style, x: seq<Byte>): seq<Byte> {
    if x == [] then [] else Encoded(st, x[0]) + Encode(st, x[1..])
  }

  lemma DecodeLiteral(b: Byte, rest: seq<Byte>)
    requires b != PERCENT
    ensures Decode([b] + rest) == [b] + Decode(rest)
  {
    assert ([b] + rest)[1..] == rest;
  }

  lemma DecodeTriplet(hi: Byte, lo: Byte, rest: seq<Byte>)
    requires IsHex(hi) && IsHex(lo)
    ensures Decode([PERCENT, hi, lo] + rest) == [Octet(hi, lo)] + Decode(rest)
  {
    var v := [PERCENT, hi, lo] + rest;
    assert v[0] == PERCENT && v[1] == hi && v[2] == lo && v[3..] == rest;
  }

  lemma HexDigits(b: Byte, s: bool, t: bool)
    ensures IsHex(HexDigit(b / 16, s)) && IsHex(HexDigit(b % 16, t))
    ensures Octet(HexDigit(b / 16, s), HexDigit(b % 16, t)) == b
  {
  }

  lemma DecodeFront(st: Style, b: Byte, rest: seq<Byte>)
    requires !st.keep(PERCENT)
    ensures Decode(Encoded(st, b) + rest) == [b] + Decode(rest)
  {
    if st.keep(b) {
      DecodeLiteral(b, rest);
    } else {
      HexDigits(b, st.smallHi(b), st.smallLo(b));
      DecodeTriplet(HexDigit(b / 16, st.smallHi(b)), HexDigit(b % 16, st.smallLo(b)), rest);
    }
  }

  lemma {:induction false} DecodeEncode(st: Style, x: seq<Byte>, tail: seq<Byte>)
    requires !st.keep(PERCENT)
    ensures Decode(Encode(st, x) + tail) == x + Decode(tail)
  {
    if x == [] {
      assert Encode(st, x) + tail == tail;
    } else {
      DecodeEncode(st, x[1..], tail);
      var front := Encoded(st, x[0]);
      Assoc(front, Encode(st, x[1..]), tail);
      DecodeFront(st, x[0], Encode(st, x[1..]) + tail);
      Assoc([x[0]], x[1..], Decode(tail));
      assert x == [x[0]] + x[1..];
    }
  }

  /** Every `%` of an encoding is followed by its two digits. */
  lemma {:induction false} PercentHasDigits(st: Style, x: seq<Byte>, i: nat)
    requires !st.keep(PERCENT) && i < |Encode(st, x)| && Encode(st, x)[i] == PERCENT
    ensures i + 2 < |Encode(st, x)|
  {
    var w := if st.keep(x[0]) then 1 else 3;
    if i >= w {
      PercentHasDigits(st, x[1..], i - w);
    }
  }

  /** The code undoes any encoding that is followed by two more bytes. */
  lemma {:induction false} CodeInvertsEncode(st: Style, x: seq<Byte>, a: Byte, b: Byte, beyond: seq<Byte>)
    requires !st.keep(PERCENT) && |beyond| == 2
    ensures Output(Encode(st, x) + [a, b], beyond) == x + [a, b]
  {
    var e := Encode(st, x);
    var v := e + [a, b];
    if EscapeAt(v, |v| - 3) {
      PercentHasDigits(st, x, |v| - 3);
    }
    if EscapeAt(v, |v| - 4) {
      PercentHasDigits(st, x, |v| - 4);
    }
    DecodesIffEndsLiteral(v, beyond);
    DecodeEncode(st, x, [a, b]);
    DecodeShort([a, b]);
  }
}
