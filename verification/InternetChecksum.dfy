/**
 The Internet checksum of a packet header (RFC 1071), computed with exactly two
 folds of a 64-bit sum instead of folding until no carry is left.
 */
module InternetChecksum {

  type Word = x: int | 0 <= x < 0x1_0000 witness 0

  /** The range of the `unsigned long` accumulator. */
  const U64: int := 0x1_0000_0000_0000_0000

  /** The word count is an `int`. */
  const INT_LIMIT: int := 0x8000_0000

  function Sum(w: seq<Word>): nat {
    if w == [] then 0 else Sum(w[..|w| - 1]) + w[|w| - 1]
  }

  function Fold(s: nat): nat {
    s / 0x1_0000 + s % 0x1_0000
  }

  // ---------------------------------------------------------------- the code

  /** The two folds, and the low half of what they leave. */
  function TwoFolds(s: nat): Word {
    var once := Fold(s);
    (once + once / 0x1_0000) % 0x1_0000
  }

  function CodeChecksum(w: seq<Word>): Word {
    0xffff - TwoFolds(Sum(w))
  }

  /** One more word does not wrap the accumulator around. */
  lemma NoWrap(sum: nat, k: nat, x: Word)
    requires sum <= k * 0xffff && k < INT_LIMIT
    ensures (sum + x) % U64 == sum + x <= (k + 1) * 0xffff
  {
    assert sum + x <= INT_LIMIT * 0xffff;
  }

  lemma NoWrapLast(sum: nat)
    requires sum <= INT_LIMIT * 0xffff
    ensures (Fold(sum) + Fold(sum) / 0x1_0000) % U64 == Fold(sum) + Fold(sum) / 0x1_0000
  {
    assert Fold(sum) <= INT_LIMIT * 0xffff;
  }

  /** A non-positive count sums nothing.  The accumulator never wraps around. */
  method Checksum(buf: array<Word>, nwords: int) returns (r: Word)
    requires nwords <= buf.Length && nwords < INT_LIMIT
    ensures r == CodeChecksum(if nwords > 0 then buf[..nwords] else [])
  {
    var sum, k := 0, 0;
    while k < nwords
      invariant 0 <= k && (k <= nwords || k == 0)
      invariant k <= buf.Length && sum == Sum(buf[..k]) && 0 <= sum <= k * 0xffff
    {
      assert buf[..k + 1][..k] == buf[..k];
      NoWrap(sum, k, buf[k]);
      sum := (sum + buf[k]) % U64;
      k := k + 1;
    }
    assert k == 0 ==> buf[..k] == [];
    r := FoldTwice(sum);
  }

  /** The end of the function: two folds and the complement. */
  method FoldTwice(total: nat) returns (r: Word)
    requires total <= INT_LIMIT * 0xffff
    ensures r == 0xffff - TwoFolds(total)
  {
    NoWrapLast(total);
    var sum := total / 0x1_0000 + total % 0x1_0000;
    sum := (sum + sum / 0x1_0000) % U64;
    r := 0xffff - sum % 0x1_0000;
  }

  // ---------------------------------------------------------------- section 4.1 of RFC 1071

  /** Fold until nothing is above the low half. */
  function FoldAll(s: nat): Word {
    if s < 0x1_0000 then s else FoldAll(Fold(s))
  }

  function RfcChecksum(w: seq<Word>): Word {
    0xffff - FoldAll(Sum(w))
  }

  lemma {:induction false} SumBound(w: seq<Word>)
    ensures Sum(w) <= |w| * 0xffff
  {
    if w != [] {
      SumBound(w[..|w| - 1]);
    }
  }

  lemma FoldAllFold(s: nat)
    ensures FoldAll(s) == FoldAll(Fold(s))
  {
  }

  lemma TwoFoldsIs(s: nat)
    ensures TwoFolds(s) == Fold(Fold(s)) % 0x1_0000
  {
    LowHalf(Fold(s) / 0x1_0000, Fold(Fold(s)));
  }

  lemma LowHalf(q: nat, t: nat)
    ensures (q * 0x1_0000 + t) % 0x1_0000 == t % 0x1_0000
  {
  }

  lemma FoldBounds(s: nat)
    requires s <= INT_LIMIT * 0xffff
    ensures Fold(Fold(s)) < 0x1_ffff
  {
    assert Fold(s) < 0x8001_0000;
  }

  lemma FoldAllSmall(t: nat)
    requires t < 0x1_ffff
    ensures FoldAll(t) == t % 0x1_0000 <==> t < 0x1_0000
  {
    if t >= 0x1_0000 {
      assert Fold(t) == t - 0xffff;
      FoldAllFold(t);
    }
  }

  lemma FoldAllTwice(s: nat)
    ensures FoldAll(s) == FoldAll(Fold(Fold(s)))
  {
    FoldAllFold(s);
    FoldAllFold(Fold(s));
  }

  /** Two folds are enough exactly when the second one leaves no carry. */
  lemma AgreeIffNoCarry(s: nat)
    requires s <= INT_LIMIT * 0xffff
    ensures TwoFolds(s) == FoldAll(s) <==> Fold(Fold(s)) < 0x1_0000
  {
    FoldAllTwice(s);
    TwoFoldsIs(s);
    FoldBounds(s);
    FoldAllSmall(Fold(Fold(s)));
  }

  /** The first sum that is too large. */
  const FIRST_BAD: nat := 0x1_0000_ffff

  lemma SmallSumsAgree(s: nat)
    requires s < FIRST_BAD
    ensures TwoFolds(s) == FoldAll(s)
  {
    assert Fold(s) < 0x1_ffff;
    AgreeIffNoCarry(s);
  }

  lemma FirstBadDiffers()
    ensures TwoFolds(FIRST_BAD) != FoldAll(FIRST_BAD)
  {
    AgreeIffNoCarry(FIRST_BAD);
  }

  function Zeros(n: nat): (w: seq<Word>)
    ensures |w| == n
  {
    seq(n, _ => 0)
  }

  function Ones(n: nat): (w: seq<Word>)
    ensures |w| == n
  {
    seq(n, _ => 0xffff)
  }

  lemma {:induction false} SumAppend(v: seq<Word>, w: seq<Word>)
    ensures Sum(v + w) == Sum(v) + Sum(w)
  {
    if w == [] {
      assert v + w == v;
    } else {
      assert (v + w)[..|v + w| - 1] == v + w[..|w| - 1];
      SumAppend(v, w[..|w| - 1]);
    }
  }

  lemma {:induction false} SumZeros(n: nat)
    ensures Sum(Zeros(n)) == 0
  {
    if n > 0 {
      assert Zeros(n)[..n - 1] == Zeros(n - 1);
      SumZeros(n - 1);
    }
  }

  lemma {:induction false} SumOnes(n: nat)
    ensures Sum(Ones(n)) == n * 0xffff
  {
    if n > 0 {
      assert Ones(n)[..n - 1] == Ones(n - 1);
      SumOnes(n - 1);
    }
  }

  /** An input of the given length, 65539 words or more, on which the two differ. */
  function BadInput(n: nat): (w: seq<Word>)
    requires n >= 65539
    ensures |w| == n
  {
    Ones(65538) + [1] + Zeros(n - 65539)
  }

  /**
   The code computes the RFC's checksum for all inputs of a length exactly when
   the length is at most 65538 words.
   */
  lemma {:induction false} CorrectUpToLength(n: nat)
    requires n < INT_LIMIT
    ensures n <= 65538 <==> forall w: seq<Word> :: |w| == n ==> CodeChecksum(w) == RfcChecksum(w)
  {
    if n <= 65538 {
      forall w: seq<Word> | |w| == n ensures CodeChecksum(w) == RfcChecksum(w) {
        SumBound(w);
        SmallSumsAgree(Sum(w));
      }
    } else {
      var w := BadInput(n);
      SumOnes(65538);
      SumZeros(n - 65539);
      SumAppend(Ones(65538), [1]);
      SumAppend(Ones(65538) + [1], Zeros(n - 65539));
      assert Sum([1]) == 1;
      FirstBadDiffers();
      assert CodeChecksum(w) != RfcChecksum(w);
    }
  }

  // ---------------------------------------------------------------- arithmetic modulo 65535

  lemma ModShift(x: int, m: int)
    ensures (x + m * 0xffff) % 0xffff == x % 0xffff
  {
  }

  /** Numbers with the same remainder differ by a multiple. */
  lemma ModDiff(a: int, b: int) returns (m: int)
    requires a % 0xffff == b % 0xffff
    ensures a == b + m * 0xffff
  {
    m := a / 0xffff - b / 0xffff;
  }

  lemma FoldMod(s: nat)
    ensures Fold(s) % 0xffff == s % 0xffff
  {
    assert s == Fold(s) + s / 0x1_0000 * 0xffff;
    ModShift(Fold(s), s / 0x1_0000);
  }

  /** The folded sum is the representative of the sum modulo 65535, 0 only for 0. */
  lemma {:induction false} FoldAllMod(s: nat)
    ensures FoldAll(s) % 0xffff == s % 0xffff
    ensures FoldAll(s) == 0 <==> s == 0
  {
    if s >= 0x1_0000 {
      FoldMod(s);
      FoldAllMod(Fold(s));
    }
  }

  /** A received header checks out exactly when its sum is a positive multiple of 65535. */
  lemma VerifiesIff(w: seq<Word>)
    ensures RfcChecksum(w) == 0 <==> Sum(w) > 0 && Sum(w) % 0xffff == 0
  {
    FoldAllMod(Sum(w));
  }

  lemma {:induction false} SumUpdate(w: seq<Word>, k: nat, x: Word)
    requires k < |w|
    ensures Sum(w[k := x]) == Sum(w) - w[k] + x
  {
    var n := |w| - 1;
    if k == n {
      assert w[k := x][..n] == w[..n];
    } else {
      assert w[k := x][..n] == w[..n][k := x];
      SumUpdate(w[..n], k, x);
    }
  }

  /** Writing the checksum into its zeroed field makes the checksum of the whole 0. */
  lemma {:induction false} SealedHeaderVerifies(w: seq<Word>, k: nat)
    requires |w| <= 65538 && k < |w| && w[k] == 0
    ensures CodeChecksum(w[k := CodeChecksum(w)]) == 0
  {
    var c := CodeChecksum(w);
    CorrectUpToLength(|w|);
    assert c == RfcChecksum(w);
    SumUpdate(w, k, c);
    FoldAllMod(Sum(w));
    ComplementMod(Sum(w), FoldAll(Sum(w)));
    VerifiesIff(w[k := c]);
    CorrectUpToLength(|w[k := c]|);
  }

  lemma ComplementMod(s: nat, f: Word)
    requires f % 0xffff == s % 0xffff && (f == 0 <==> s == 0)
    ensures s + (0xffff - f) > 0 && (s + (0xffff - f)) % 0xffff == 0
  {
    var m := ModDiff(s, f);
    ModShift(0, m + 1);
  }

  lemma DifferenceMod(s: nat, x: Word, y: Word)
    requires s % 0xffff == 0
    ensures (s - x + y) % 0xffff == 0 <==> y == x || (y == 0 && x == 0xffff) || (y == 0xffff && x == 0)
  {
    var d: int := y as int - x as int;
    ModShift(d, s / 0xffff);
  }

  lemma {:induction false} SumPositive(w: seq<Word>)
    ensures Sum(w) > 0 <==> exists j :: 0 <= j < |w| && w[j] != 0
  {
    if w != [] {
      var n := |w| - 1;
      SumPositive(w[..n]);
      if j :| 0 <= j < n && w[j] != 0 {
        assert w[..n][j] != 0;
      }
    }
  }

  lemma CodeVerifiesIff(w: seq<Word>)
    requires |w| <= 65538
    ensures CodeChecksum(w) == 0 <==> Sum(w) > 0 && Sum(w) % 0xffff == 0
  {
    CorrectUpToLength(|w|);
    assert CodeChecksum(w) == RfcChecksum(w);
    VerifiesIff(w);
  }

  /** Some word other than word `k` is not 0. */
  predicate OthersMatter(w: seq<Word>, k: nat) {
    exists j :: 0 <= j < |w| && j != k && w[j] != 0
  }

  lemma {:induction false} PositiveAfterUpdate(w: seq<Word>, k: nat, x: Word)
    requires k < |w|
    ensures Sum(w[k := x]) > 0 <==> x != 0 || OthersMatter(w, k)
  {
    var u := w[k := x];
    SumPositive(u);
    assert u[k] == x;
    if j :| 0 <= j < |w| && j != k && w[j] != 0 {
      assert u[j] != 0;
    }
  }

  /**
   In a header that checks out, changing one word is noticed unless it becomes
   the other form of zero; even then it is noticed when no word but 0 is left.
   */
  lemma {:induction false} SingleWordErrors(w: seq<Word>, k: nat, x: Word)
    requires |w| <= 65538 && k < |w| && CodeChecksum(w) == 0
    ensures CodeChecksum(w[k := x]) == 0 <==>
      || x == w[k]
      || (x == 0xffff && w[k] == 0)
      || (x == 0 && w[k] == 0xffff && OthersMatter(w, k))
  {
    CodeVerifiesIff(w);
    CodeVerifiesIff(w[k := x]);
    SumUpdate(w, k, x);
    DifferenceMod(Sum(w), w[k], x);
    PositiveAfterUpdate(w, k, x);
  }

  // ---------------------------------------------------------------- byte order

  function Swap(x: Word): Word {
    x % 0x100 * 0x100 + x / 0x100
  }

  function SwapAll(w: seq<Word>): (r: seq<Word>)
    ensures |r| == |w|
  {
    seq(|w|, i requires 0 <= i < |w| => Swap(w[i]))
  }

  lemma SwapMod(x: Word)
    ensures Swap(x) % 0xffff == x * 0x100 % 0xffff
    ensures Swap(x) == 0 <==> x == 0
  {
    assert (x as int) * 0x100 == Swap(x) + x / 0x100 * 0xffff;
    ModShift(Swap(x), x / 0x100);
  }

  lemma {:induction false} SumSwapped(w: seq<Word>)
    ensures Sum(SwapAll(w)) % 0xffff == Sum(w) * 0x100 % 0xffff
    ensures Sum(SwapAll(w)) == 0 <==> Sum(w) == 0
  {
    if w != [] {
      var n := |w| - 1;
      assert SwapAll(w)[..n] == SwapAll(w[..n]);
      SumSwapped(w[..n]);
      SwapMod(w[n]);
      var a, b := Sum(SwapAll(w[..n])), Swap(w[n]);
      ModAdd(a, Sum(w[..n]) * 0x100, b, (w[n] as int) * 0x100);
    }
  }

  lemma ModAdd(a: int, a': int, b: int, b': int)
    requires a % 0xffff == a' % 0xffff && b % 0xffff == b' % 0xffff
    ensures (a + b) % 0xffff == (a' + b') % 0xffff
  {
    var m := ModDiff(a, a');
    var n := ModDiff(b, b');
    ModShift(a' + b', m + n);
  }

  lemma ModScale(a: int, a': int)
    requires a % 0xffff == a' % 0xffff
    ensures a * 0x100 % 0xffff == a' * 0x100 % 0xffff
  {
    var m := ModDiff(a, a');
    ModShift(a' * 0x100, m * 0x100);
  }

  lemma SameRepresentative(x: Word, y: Word)
    requires x % 0xffff == y % 0xffff && (x == 0 <==> y == 0)
    ensures x == y
  {
  }

  lemma FoldSwapped(s: nat, t: nat)
    requires t % 0xffff == s * 0x100 % 0xffff && (t == 0 <==> s == 0)
    ensures FoldAll(t) == Swap(FoldAll(s))
  {
    var f := FoldAll(s);
    FoldAllMod(s);
    FoldAllMod(t);
    SwapMod(f);
    ModScale(s, f);
    SameRepresentative(FoldAll(t), Swap(f));
  }

  lemma SwapComplement(x: Word)
    ensures Swap(0xffff - x) == 0xffff - Swap(x)
  {
    var hi, lo := x / 0x100, x % 0x100;
    assert 0xffff - x == (0xff - hi) * 0x100 + (0xff - lo);
  }

  /** The checksum does not depend on the byte order in which the words are read. */
  lemma {:induction false} ByteOrderIndependent(w: seq<Word>)
    requires |w| <= 65538
    ensures CodeChecksum(SwapAll(w)) == Swap(CodeChecksum(w))
  {
    CorrectUpToLength(|w|);
    assert CodeChecksum(w) == RfcChecksum(w) && CodeChecksum(SwapAll(w)) == RfcChecksum(SwapAll(w));
    var s, t := Sum(w), Sum(SwapAll(w));
    SumSwapped(w);
    FoldSwapped(s, t);
    SwapComplement(FoldAll(s));
  }

  // ---------------------------------------------------------------- the header in the packet

  /** Word 5 of an IPv4 header is its checksum. */
  const CHECK: nat := 5

  /**
   main's last step on the header: `check`, in octets 10 and 11, is still 0, and
   the header has 2 * ihl words.
   */
  method SealHeader(packet: array<Word>, ihl: nat)
    requires 3 <= ihl <= 15 && 2 * ihl <= packet.Length && packet[CHECK] == 0
    modifies packet
    ensures forall octet :: 0 <= octet < 2 * packet.Length && octet != 10 && octet != 11 ==>
      packet[octet / 2] == old(packet[octet / 2])
    ensures packet[5] == CodeChecksum(old(packet[..2 * ihl]))
    ensures RfcChecksum(packet[..2 * ihl]) == 0
  {
    ghost var header := packet[..2 * ihl];
    var c := Checksum(packet, 2 * ihl);
    packet[CHECK] := c;
    assert packet[..2 * ihl] == header[CHECK := c];
    SealedHeaderVerifies(header, CHECK);
    CorrectUpToLength(2 * ihl);
    assert CodeChecksum(packet[..2 * ihl]) == RfcChecksum(packet[..2 * ihl]);
  }
}
