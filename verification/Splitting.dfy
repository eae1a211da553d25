/**
 Cutting a text at its separators, and the words that stand in it.
 */
module Splitting {

  /** The end of the run of letters and digits, or of separators, that starts at `from`. */
  function End(alnum: char -> bool, s: string, from: nat, want: bool): (n: nat)
    requires from <= |s|
    ensures from <= n <= |s|
    ensures forall i :: from <= i < n ==> alnum(s[i]) == want
    ensures n < |s| ==> alnum(s[n]) != want
    decreases |s| - from
  {
    if from == |s| || alnum(s[from]) != want then from else End(alnum, s, from + 1, want)
  }

  /** The pieces of what stands from `from` on. */
  function SplitFrom(alnum: char -> bool, s: string, from: nat): (r: seq<string>)
    requires from <= |s|
    ensures r != []
    ensures forall k :: 0 < k < |r| - 1 ==> r[k] != ""
    ensures |r| > 1 ==> from < |s| && (alnum(s[from]) ==> r[0] != "")
    decreases |s| - from
  {
    var i := End(alnum, s, from, true);
    if i == |s| then [s[from..]] else [s[from..i]] + SplitFrom(alnum, s, End(alnum, s, i, false))
  }

  /**
   regexp_split_to_table with `[^[:alnum:]]+`: cut at every longest run of
   separators.  Only the first and the last piece can be empty.
   */
  function Split(alnum: char -> bool, s: string): (r: seq<string>)
    ensures r != []
    ensures forall k :: 0 < k < |r| - 1 ==> r[k] != ""
  {
    SplitFrom(alnum, s, 0)
  }

  /** The first run of separators behind `from` goes from `i` to `j`. */
  ghost predicate IsRun(alnum: char -> bool, s: string, from: int, i: int, j: int) {
    && 0 <= from <= i < j <= |s|
    && (forall k :: from <= k < i ==> alnum(s[k]))
    && (forall k :: i <= k < j ==> !alnum(s[k]))
    && (j < |s| ==> alnum(s[j]))
  }

  lemma EndIs(alnum: char -> bool, s: string, from: nat, want: bool, n: nat)
    requires from <= n <= |s| && (n < |s| ==> alnum(s[n]) != want)
    requires forall i :: from <= i < n ==> alnum(s[i]) == want
    ensures End(alnum, s, from, want) == n
  {
  }

  lemma SplitAt(alnum: char -> bool, s: string, from: nat, i: nat, j: nat)
    requires IsRun(alnum, s, from, i, j)
    ensures SplitFrom(alnum, s, from) == [s[from..i]] + SplitFrom(alnum, s, j)
    ensures |SplitFrom(alnum, s, j)| > 1 ==> SplitFrom(alnum, s, j)[0] != ""
  {
    EndIs(alnum, s, from, true, i);
    EndIs(alnum, s, i, false, j);
  }

  lemma FirstRun(alnum: char -> bool, s: string, from: nat) returns (i: nat, j: nat)
    requires from <= |s| && End(alnum, s, from, true) < |s|
    ensures IsRun(alnum, s, from, i, j)
    ensures SplitFrom(alnum, s, from) == [s[from..i]] + SplitFrom(alnum, s, j)
    ensures |SplitFrom(alnum, s, j)| > 1 ==> SplitFrom(alnum, s, j)[0] != ""
  {
    i := End(alnum, s, from, true);
    j := End(alnum, s, i, false);
    SplitAt(alnum, s, from, i, j);
  }

  // ---------------------------------------------------------------- the pieces are the text

  ghost predicate AllAre(alnum: char -> bool, s: string, want: bool) {
    forall i :: 0 <= i < |s| ==> alnum(s[i]) == want
  }

  /** Pieces and separators in turn. */
  function Weave(pieces: seq<string>, seps: seq<string>): string
    requires |pieces| == |seps| + 1
  {
    if seps == [] then pieces[0] else pieces[0] + (seps[0] + Weave(pieces[1..], seps[1..]))
  }

  /** The text is these pieces with these separators between them; only the first and the last piece may be empty. */
  ghost predicate Cuts(alnum: char -> bool, s: string, pieces: seq<string>, seps: seq<string>) {
    && |pieces| == |seps| + 1
    && (forall k :: 0 <= k < |pieces| ==> AllAre(alnum, pieces[k], true))
    && (forall k :: 0 < k < |pieces| - 1 ==> pieces[k] != "")
    && (forall k :: 0 <= k < |seps| ==> seps[k] != "" && AllAre(alnum, seps[k], false))
    && s == Weave(pieces, seps)
  }

  lemma RunOf(alnum: char -> bool, s: string, from: nat, a: string, sep: string, rest: string)
    requires AllAre(alnum, a, true) && AllAre(alnum, sep, false) && sep != "" && from <= |s|
    requires s[from..] == a + (sep + rest) && (rest == "" || alnum(rest[0]))
    ensures
      var i, j := from + |a|, from + |a| + |sep|;
      IsRun(alnum, s, from, i, j) && s[from..i] == a && s[j..] == rest
  {
    var t := s[from..];
    assert |t| == |a| + |sep| + |rest|;
    assert forall k :: from <= k < |s| ==> s[k] == t[k - from];
    assert forall k :: 0 <= k < |sep| ==> t[|a| + k] == sep[k];
  }

  lemma CutsRest(alnum: char -> bool, t: string, pieces: seq<string>, seps: seq<string>) returns (rest: string)
    requires Cuts(alnum, t, pieces, seps) && seps != []
    ensures Cuts(alnum, rest, pieces[1..], seps[1..]) && t == pieces[0] + (seps[0] + rest)
    ensures AllAre(alnum, pieces[0], true) && AllAre(alnum, seps[0], false) && seps[0] != ""
    ensures rest == "" || alnum(rest[0])
  {
    rest := Weave(pieces[1..], seps[1..]);
    assert AllAre(alnum, pieces[1], true);
  }

  /** No other pieces make up the text. */
  lemma {:induction false} CutsIsSplit(alnum: char -> bool, s: string, from: nat,
                                       pieces: seq<string>, seps: seq<string>)
    requires from <= |s| && Cuts(alnum, s[from..], pieces, seps)
    ensures pieces == SplitFrom(alnum, s, from)
    decreases |seps|
  {
    if seps == [] {
      CutsWhole(alnum, s, from, pieces);
    } else {
      var rest := CutsRest(alnum, s[from..], pieces, seps);
      RunOf(alnum, s, from, pieces[0], seps[0], rest);
      var i, j := from + |pieces[0]|, from + |pieces[0]| + |seps[0]|;
      CutsIsSplit(alnum, s, j, pieces[1..], seps[1..]);
      SplitAt(alnum, s, from, i, j);
    }
  }

  lemma CutsWhole(alnum: char -> bool, s: string, from: nat, pieces: seq<string>)
    requires from <= |s| && Cuts(alnum, s[from..], pieces, [])
    ensures pieces == SplitFrom(alnum, s, from)
  {
    assert AllAre(alnum, pieces[0], true) && pieces[0] == s[from..];
    assert forall k :: from <= k < |s| ==> s[k] == s[from..][k - from];
    EndIs(alnum, s, from, true, |s|);
  }

  lemma CutsOneMore(alnum: char -> bool, s: string, from: nat, i: nat, j: nat,
                    pieces: seq<string>, seps: seq<string>, whole: seq<string>)
    requires IsRun(alnum, s, from, i, j) && whole == [s[from..i]] + pieces
    requires Cuts(alnum, s[j..], pieces, seps) && (|pieces| > 1 ==> pieces[0] != "")
    ensures Cuts(alnum, s[from..], whole, [s[i..j]] + seps)
  {
    assert whole[1..] == pieces && ([s[i..j]] + seps)[1..] == seps;
    assert s[from..] == s[from..i] + (s[i..j] + s[j..]);
  }

  lemma {:induction false} SplitCuts(alnum: char -> bool, s: string, from: nat) returns (seps: seq<string>)
    requires from <= |s|
    ensures Cuts(alnum, s[from..], SplitFrom(alnum, s, from), seps)
    decreases |s| - from
  {
    if End(alnum, s, from, true) == |s| {
      seps := [];
    } else {
      var i, j := FirstRun(alnum, s, from);
      var rest := SplitCuts(alnum, s, j);
      CutsOneMore(alnum, s, from, i, j, SplitFrom(alnum, s, j), rest, SplitFrom(alnum, s, from));
      seps := [s[i..j]] + rest;
    }
  }

  /** The pieces of a text are the only ones that, joined by runs of separators, are the text. */
  lemma {:induction false} SplitIff(alnum: char -> bool, s: string, pieces: seq<string>)
    ensures pieces == Split(alnum, s) <==> exists seps :: Cuts(alnum, s, pieces, seps)
  {
    assert s[0..] == s;
    if pieces == Split(alnum, s) {
      var seps := SplitCuts(alnum, s, 0);
    }
    if seps :| Cuts(alnum, s, pieces, seps) {
      CutsIsSplit(alnum, s, 0, pieces, seps);
    }
  }

  // ---------------------------------------------------------------- the pieces are the words

  /** `t` stands in `s` as a whole word: letters and digits only, and none next to it. */
  predicate OccursAt(alnum: char -> bool, s: string, t: string, i: int, j: int) {
    && 0 <= i < j <= |s| && s[i..j] == t
    && (forall k :: i <= k < j ==> alnum(s[k]))
    && (i == 0 || !alnum(s[i - 1]))
    && (j == |s| || !alnum(s[j]))
  }

  ghost predicate Occurs(alnum: char -> bool, s: string, t: string) {
    exists i, j :: OccursAt(alnum, s, t, i, j)
  }

  lemma {:induction false} PieceOccurs(alnum: char -> bool, s: string, from: nat, t: string)
    requires from <= |s| && (from == 0 || !alnum(s[from - 1]))
    requires t in SplitFrom(alnum, s, from) && t != ""
    ensures Occurs(alnum, s, t)
    decreases |s| - from
  {
    if End(alnum, s, from, true) == |s| {
      assert s[from..|s|] == s[from..];
      assert OccursAt(alnum, s, t, from, |s|);
    } else {
      var i, j := FirstRun(alnum, s, from);
      if t == s[from..i] {
        assert OccursAt(alnum, s, t, from, i);
      } else {
        PieceOccurs(alnum, s, j, t);
      }
    }
  }

  /** A word is the text before the first separator run, or it comes after the run. */
  lemma OccursWhere(alnum: char -> bool, s: string, t: string, from: nat, a: int, b: int, i: nat, j: nat)
    requires OccursAt(alnum, s, t, a, b) && IsRun(alnum, s, from, i, j) && from <= a
    ensures if a < i then a == from && b == i else a >= j
  {
    assert alnum(s[a]) && alnum(s[b - 1]) && !alnum(s[i]);
  }

  lemma {:induction false} OccursPiece(alnum: char -> bool, s: string, from: nat, t: string, a: int, b: int)
    requires OccursAt(alnum, s, t, a, b) && from <= a
    ensures t in SplitFrom(alnum, s, from)
    decreases |s| - from
  {
    if End(alnum, s, from, true) == |s| {
      assert a == from && b == |s|;
      assert s[from..|s|] == s[from..];
      assert SplitFrom(alnum, s, from)[0] == t;
    } else {
      var i, j := FirstRun(alnum, s, from);
      OccursWhere(alnum, s, t, from, a, b, i, j);
      if a >= j {
        OccursPiece(alnum, s, j, t, a, b);
      }
      assert t == s[from..i] || t in SplitFrom(alnum, s, j);
    }
  }

  /** The pieces of a text that are not empty are the words that stand in it. */
  lemma {:induction false} PieceIffOccurs(alnum: char -> bool, s: string, t: string)
    ensures t != "" && t in Split(alnum, s) <==> Occurs(alnum, s, t)
  {
    if t != "" && t in Split(alnum, s) {
      PieceOccurs(alnum, s, 0, t);
    }
    if a, b :| OccursAt(alnum, s, t, a, b) {
      OccursPiece(alnum, s, 0, t, a, b);
    }
  }
}
