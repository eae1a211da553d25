/**
 The check for directory traversal, a few substring tests, against what it
 stands for: no segment of the path is `.` or `..` (section 5.2.4 of RFC 3986).
 */
module PathCheck {
  import opened PercentDecoding

  const SLASH: Byte := 47
  const BACKSLASH: Byte := 92
  const DOT: seq<Byte> := [46]
  const DOTDOT: seq<Byte> := [46, 46]

  // ---------------------------------------------------------------- the check

  predicate StartsWith(s: seq<Byte>, sub: seq<Byte>) {
    |sub| <= |s| && s[..|sub|] == sub
  }

  predicate EndsWith(s: seq<Byte>, sub: seq<Byte>) {
    |sub| <= |s| && s[|s| - |sub|..] == sub
  }

  /** strstr finds it. */
  predicate HasSubstring(s: seq<Byte>, sub: seq<Byte>) {
    exists i :: 0 <= i <= |s| && StartsWith(s[i..], sub)
  }

  predicate CheckPath(path: seq<Byte>) {
    && path != [] && path[0] == SLASH && BACKSLASH !in path
    && !HasSubstring(path, [47, 46, 46, 47]) && !HasSubstring(path, [47, 46, 47])
    && !EndsWith(path, [47, 46, 46]) && !EndsWith(path, [47, 46])
  }

  // ---------------------------------------------------------------- segments

  /** The position of the first slash, or the length. */
  function FirstSlash(s: seq<Byte>): (n: nat)
    ensures n <= |s|
    ensures forall i :: 0 <= i < n ==> s[i] != SLASH
    ensures n < |s| ==> s[n] == SLASH
  {
    if s == [] || s[0] == SLASH then 0 else 1 + FirstSlash(s[1..])
  }

  function Segments(s: seq<Byte>): seq<seq<Byte>> {
    var n := FirstSlash(s);
    if n == |s| then [s] else [s[..n]] + Segments(s[n + 1..])
  }

  /** After the slash at `i` comes `d`, and then the end or the next slash. */
  predicate SegmentAt(s: seq<Byte>, i: int, d: seq<Byte>) {
    && 0 <= i < |s| && s[i] == SLASH
    && i + 1 + |d| <= |s| && s[i + 1..i + 1 + |d|] == d
    && (i + 1 + |d| < |s| ==> s[i + 1 + |d|] == SLASH)
  }

  ghost predicate HasSegment(s: seq<Byte>, d: seq<Byte>) {
    exists i :: SegmentAt(s, i, d)
  }

  lemma SegmentAtShift(s: seq<Byte>, n: nat, i: int, d: seq<Byte>)
    requires n <= i && n <= |s|
    ensures SegmentAt(s, i, d) <==> SegmentAt(s[n..], i - n, d)
  {
    if i + 1 + |d| <= |s| {
      assert s[n..][i - n + 1..i - n + 1 + |d|] == s[i + 1..i + 1 + |d|];
    }
  }

  /** A segment at the front of what starts with a slash. */
  lemma DotsAtFront(s: seq<Byte>, d: seq<Byte>)
    requires s != [] && s[0] == SLASH
    ensures SegmentAt(s, 0, d) <==> StartsWith(s, [SLASH] + d + [SLASH]) || s == [SLASH] + d
  {
    var inner := [SLASH] + d + [SLASH];
    if SegmentAt(s, 0, d) {
      if |d| + 1 < |s| {
        assert s[..|inner|] == inner;
      } else {
        assert s == [SLASH] + d;
      }
    }
    if StartsWith(s, inner) {
      assert forall k :: 0 <= k < |inner| ==> s[k] == s[..|inner|][k] == inner[k];
      assert s[1..1 + |d|] == d;
    }
    if s == [SLASH] + d {
      assert s[1..1 + |d|] == d;
    }
  }

  /** A substring with both slashes, or one at the end, is a segment. */
  lemma SubstringsAreSegments(s: seq<Byte>, d: seq<Byte>)
    ensures HasSubstring(s, [SLASH] + d + [SLASH]) || EndsWith(s, [SLASH] + d) <==> HasSegment(s, d)
  {
    var inner, outer := [SLASH] + d + [SLASH], [SLASH] + d;
    if HasSubstring(s, inner) {
      var i :| 0 <= i <= |s| && StartsWith(s[i..], inner);
      assert s[i..][..|inner|] == inner;
      assert forall k :: 0 <= k < |inner| ==> s[i..][k] == inner[k];
      DotsAtFront(s[i..], d);
      SegmentAtShift(s, i, i, d);
    }
    if EndsWith(s, outer) {
      var i := |s| - |outer|;
      DotsAtFront(s[i..], d);
      SegmentAtShift(s, i, i, d);
    }
    if HasSegment(s, d) {
      var i :| SegmentAt(s, i, d);
      SegmentAtShift(s, i, i, d);
      DotsAtFront(s[i..], d);
    }
  }

  /** Behind the first slash a segment is the next one, or one further on. */
  lemma SegmentShift(s: seq<Byte>, d: seq<Byte>, n: nat)
    requires n < |s| && s[n] == SLASH && forall i :: 0 <= i < n ==> s[i] != SLASH
    requires SLASH !in d
    ensures HasSegment(s, d) <==> s[n + 1..][..FirstSlash(s[n + 1..])] == d || HasSegment(s[n + 1..], d)
  {
    NextSegment(s, d, n);
    if HasSegment(s[n + 1..], d) {
      SegmentBehind(s, d, n + 1);
    }
    if HasSegment(s, d) {
      var i :| SegmentAt(s, i, d);
      assert i >= n;
      if i > n {
        SegmentAtShift(s, n + 1, i, d);
        assert SegmentAt(s[n + 1..], i - n - 1, d);
      }
    }
  }

  lemma SegmentBehind(s: seq<Byte>, d: seq<Byte>, n: nat)
    requires n <= |s| && HasSegment(s[n..], d)
    ensures HasSegment(s, d)
  {
    var i :| SegmentAt(s[n..], i, d);
    SegmentAtShift(s, n, n + i, d);
    assert SegmentAt(s, n + i, d);
  }

  lemma NextSegment(s: seq<Byte>, d: seq<Byte>, n: nat)
    requires n < |s| && s[n] == SLASH && SLASH !in d
    ensures SegmentAt(s, n, d) <==> s[n + 1..][..FirstSlash(s[n + 1..])] == d
  {
    var r := s[n + 1..];
    if SegmentAt(s, n, d) {
      assert d == s[n + 1..n + 1 + |d|] == r[..|d|];
      FirstSlashIs(r, |d|);
    }
    if r[..FirstSlash(r)] == d {
      assert s[n + 1..n + 1 + |d|] == d;
    }
  }

  lemma FirstSlashIs(s: seq<Byte>, n: nat)
    requires n <= |s| && SLASH !in s[..n] && (n < |s| ==> s[n] == SLASH)
    ensures FirstSlash(s) == n
  {
    assert forall i :: 0 <= i < n ==> s[i] == s[..n][i];
  }

  lemma NoSlashNoSegment(s: seq<Byte>, d: seq<Byte>)
    requires FirstSlash(s) == |s|
    ensures !HasSegment(s, d)
  {
  }

  lemma {:induction false} InSegments(s: seq<Byte>, d: seq<Byte>)
    requires SLASH !in d
    ensures d in Segments(s) <==> d == s[..FirstSlash(s)] || HasSegment(s, d)
    decreases |s|
  {
    var n := FirstSlash(s);
    if n == |s| {
      assert s[..n] == s;
      NoSlashNoSegment(s, d);
    } else {
      var first, rest := s[..n], Segments(s[n + 1..]);
      SegmentsAt(s, n);
      InSegments(s[n + 1..], d);
      SegmentShift(s, d, n);
      assert d in [first] + rest <==> d == first || d in rest;
    }
  }

  /** Accepted: an absolute path without backslashes, none of whose segments is `.` or `..`. */
  lemma CheckPathIsSegmentWise(path: seq<Byte>)
    ensures CheckPath(path) <==>
      path != [] && path[0] == 47 && 92 !in path && [46] !in Segments(path) && [46, 46] !in Segments(path)
  {
    assert [SLASH] + DOT + [SLASH] == [47, 46, 47] && [SLASH] + DOT == [47, 46];
    assert [SLASH] + DOTDOT + [SLASH] == [47, 46, 46, 47] && [SLASH] + DOTDOT == [47, 46, 46];
    SubstringsAreSegments(path, DOT);
    SubstringsAreSegments(path, DOTDOT);
    InSegments(path, DOT);
    InSegments(path, DOTDOT);
    if path != [] && path[0] == SLASH {
      assert FirstSlash(path) == 0;
      assert path[..0] == [];
    }
  }

  /** The segments with a slash between each and the next. */
  function Joined(segments: seq<seq<Byte>>): seq<Byte>
    requires segments != []
  {
    if |segments| == 1 then segments[0] else segments[0] + ([47] + Joined(segments[1..]))
  }

  lemma FirstSlashIn(a: seq<Byte>, rest: seq<Byte>)
    requires 47 !in a
    ensures FirstSlash(a) == |a| && FirstSlash(a + ([47] + rest)) == |a|
  {
    var s := a + ([47] + rest);
    assert s[|a|] == 47;
    FirstSlashIs(s, |a|);
    FirstSlashIs(a, |a|);
  }

  lemma SegmentsAt(s: seq<Byte>, n: nat)
    requires n == FirstSlash(s) < |s|
    ensures Segments(s) == [s[..n]] + Segments(s[n + 1..])
  {
  }

  lemma SegmentsStep(s: seq<Byte>, a: seq<Byte>, rest: seq<Byte>)
    requires 47 !in a && s == a + ([47] + rest)
    ensures Segments(s) == [a] + Segments(rest)
  {
    FirstSlashIn(a, rest);
    SegmentsAt(s, |a|);
    assert s[..|a|] == a;
    assert s[|a| + 1..] == rest;
  }

  lemma {:induction false} JoinedSplits(segments: seq<seq<Byte>>)
    requires segments != [] && forall k :: 0 <= k < |segments| ==> 47 !in segments[k]
    ensures Segments(Joined(segments)) == segments
  {
    if |segments| == 1 {
      FirstSlashIn(segments[0], []);
      assert segments == [segments[0]];
    } else {
      JoinedSplits(segments[1..]);
      SegmentsStep(Joined(segments), segments[0], Joined(segments[1..]));
    }
  }

  lemma {:induction false} SegmentsJoin(s: seq<Byte>)
    ensures Segments(s) != [] && Joined(Segments(s)) == s
    ensures forall k :: 0 <= k < |Segments(s)| ==> 47 !in Segments(s)[k]
    decreases |s|
  {
    var n := FirstSlash(s);
    if n < |s| {
      SegmentsJoin(s[n + 1..]);
      SegmentsAt(s, n);
      JoinedFirst(s, n, Segments(s[n + 1..]));
    }
  }

  lemma JoinedFirst(s: seq<Byte>, n: nat, rest: seq<seq<Byte>>)
    requires n < |s| && s[n] == 47 && rest != [] && Joined(rest) == s[n + 1..]
    ensures Joined([s[..n]] + rest) == s
  {
    assert ([s[..n]] + rest)[1..] == rest;
    assert s == s[..n] + ([47] + s[n + 1..]);
  }

  /** The segments of a text are the only ones without a slash that, joined by slashes, are the text. */
  lemma SegmentsIff(s: seq<Byte>, segments: seq<seq<Byte>>)
    ensures segments == Segments(s) <==>
      && segments != [] && (forall k :: 0 <= k < |segments| ==> 47 !in segments[k])
      && Joined(segments) == s
  {
    SegmentsJoin(s);
    if segments != [] && (forall k :: 0 <= k < |segments| ==> 47 !in segments[k]) && Joined(segments) == s {
      JoinedSplits(segments);
    }
  }

  // ---------------------------------------------------------------- remove_dot_segments

  /** The output buffer without its last segment and the slash before it. */
  function DropLast(out: seq<Byte>): (r: seq<Byte>)
    ensures |r| <= |out|
  {
    if out == [] then []
    else if out[|out| - 1] == SLASH then out[..|out| - 1]
    else DropLast(out[..|out| - 1])
  }

  /** The length of the first segment of the input, its leading slash included. */
  function FirstSegment(s: seq<Byte>): (n: nat)
    requires s != []
    ensures 0 < n <= |s|
    ensures n < |s| ==> s[n] == SLASH
    ensures forall i :: 0 < i < n ==> s[i] != SLASH
  {
    1 + FirstSlash(s[1..])
  }

  /** Steps 2A to 2E of section 5.2.4, on the input and the output buffer. */
  function RemoveDots(input: seq<Byte>, out: seq<Byte>): seq<Byte>
    decreases |input|
  {
    if input == [] then out
    else if StartsWith(input, [46, 46, 47]) then RemoveDots(input[3..], out)
    else if StartsWith(input, [46, 47]) then RemoveDots(input[2..], out)
    else if StartsWith(input, [47, 46, 47]) then RemoveDots(input[2..], out)
    else if input == [47, 46] then RemoveDots([47], out)
    else if StartsWith(input, [47, 46, 46, 47]) then RemoveDots(input[3..], DropLast(out))
    else if input == [47, 46, 46] then RemoveDots([47], DropLast(out))
    else if input == [46] || input == [46, 46] then out
    else
      var n := FirstSegment(input);
      RemoveDots(input[n..], out + input[..n])
  }

  function RemoveDotSegments(path: seq<Byte>): seq<Byte> {
    RemoveDots(path, [])
  }

  lemma {:induction false} RemoveDotsShrinks(input: seq<Byte>, out: seq<Byte>)
    ensures |RemoveDots(input, out)| <= |input| + |out|
    decreases |input|
  {
    if input == [] {
    } else if StartsWith(input, [46, 46, 47]) {
      RemoveDotsShrinks(input[3..], out);
    } else if StartsWith(input, [46, 47]) || StartsWith(input, [47, 46, 47]) {
      RemoveDotsShrinks(input[2..], out);
    } else if input == [47, 46] {
      RemoveDotsShrinks([47], out);
    } else if StartsWith(input, [47, 46, 46, 47]) {
      RemoveDotsShrinks(input[3..], DropLast(out));
    } else if input == [47, 46, 46] {
      RemoveDotsShrinks([47], DropLast(out));
    } else if input == [46] || input == [46, 46] {
    } else {
      var n := FirstSegment(input);
      RemoveDotsShrinks(input[n..], out + input[..n]);
    }
  }

  /** The rules for dot segments apply when the first segment is one. */
  lemma RuleApplies(s: seq<Byte>)
    requires s != [] && s[0] == SLASH
    ensures SegmentAt(s, 0, DOT) <==> StartsWith(s, [47, 46, 47]) || s == [47, 46]
    ensures SegmentAt(s, 0, DOTDOT) <==> StartsWith(s, [47, 46, 46, 47]) || s == [47, 46, 46]
    ensures !StartsWith(s, [46, 46, 47]) && !StartsWith(s, [46, 47]) && s != [46] && s != [46, 46]
  {
    DotsAtFront(s, DOT);
    DotsAtFront(s, DOTDOT);
    assert [SLASH] + DOT + [SLASH] == [47, 46, 47] && [SLASH] + DOT == [47, 46];
    assert [SLASH] + DOTDOT + [SLASH] == [47, 46, 46, 47] && [SLASH] + DOTDOT == [47, 46, 46];
    assert forall sub :: StartsWith(s, sub) && |sub| > 0 ==> sub[0] == s[..|sub|][0] == SLASH;
  }

  /** Segments further on are those of the input that is left. */
  lemma SegmentRest(s: seq<Byte>, d: seq<Byte>)
    requires s != [] && s[0] == SLASH && d != [] && SLASH !in d && !SegmentAt(s, 0, d)
    ensures HasSegment(s, d) <==> HasSegment(s[FirstSegment(s)..], d)
  {
    var n := FirstSegment(s);
    if HasSegment(s, d) {
      var i :| SegmentAt(s, i, d);
      assert i >= n;
      SegmentAtShift(s, n, i, d);
      assert SegmentAt(s[n..], i - n, d);
    }
    if HasSegment(s[n..], d) {
      SegmentBehind(s, d, n);
    }
  }

  ghost predicate HasDots(s: seq<Byte>) {
    HasSegment(s, DOT) || HasSegment(s, DOTDOT)
  }

  /** A dot segment at the front is lost. */
  lemma DotsAreLost(input: seq<Byte>, out: seq<Byte>)
    requires input != [] && input[0] == SLASH
    requires SegmentAt(input, 0, DOT) || SegmentAt(input, 0, DOTDOT)
    ensures |RemoveDots(input, out)| < |out| + |input|
  {
    RuleApplies(input);
    RemoveDotsShrinks([47], out);
    RemoveDotsShrinks([47], DropLast(out));
    RemoveDotsShrinks(input[2..], out);
    if |input| >= 3 {
      RemoveDotsShrinks(input[3..], DropLast(out));
    }
  }

  /** Anything else is moved to the output. */
  lemma SegmentIsMoved(input: seq<Byte>, out: seq<Byte>)
    requires input != [] && input[0] == SLASH
    requires !SegmentAt(input, 0, DOT) && !SegmentAt(input, 0, DOTDOT)
    ensures
      var n := FirstSegment(input);
      RemoveDots(input, out) == RemoveDots(input[n..], out + input[..n])
  {
    RuleApplies(input);
  }

  lemma DotsRest(s: seq<Byte>)
    requires s != [] && s[0] == SLASH && !SegmentAt(s, 0, DOT) && !SegmentAt(s, 0, DOTDOT)
    ensures HasDots(s) <==> HasDots(s[FirstSegment(s)..])
  {
    SegmentRest(s, DOT);
    SegmentRest(s, DOTDOT);
  }

  /** Without dot segments the result is everything; with one, something is lost. */
  ghost predicate KeptUnlessDots(input: seq<Byte>, out: seq<Byte>, r: seq<Byte>) {
    if HasDots(input) then |r| < |out| + |input| else r == out + input
  }

  lemma MovingKeeps(input: seq<Byte>, out: seq<Byte>, r: seq<Byte>)
    requires input != [] && input[0] == SLASH && !SegmentAt(input, 0, DOT) && !SegmentAt(input, 0, DOTDOT)
    requires var n := FirstSegment(input); KeptUnlessDots(input[n..], out + input[..n], r)
    ensures KeptUnlessDots(input, out, r)
  {
    var n := FirstSegment(input);
    DotsRest(input);
    assert out + input[..n] + input[n..] == out + input;
  }

  lemma {:induction false} RemoveDotsIs(input: seq<Byte>, out: seq<Byte>)
    requires input == [] || input[0] == SLASH
    ensures KeptUnlessDots(input, out, RemoveDots(input, out))
    decreases |input|
  {
    if input == [] {
      assert out + [] == out;
    } else if SegmentAt(input, 0, DOT) || SegmentAt(input, 0, DOTDOT) {
      DotsAreLost(input, out);
      assert HasDots(input);
    } else {
      var n := FirstSegment(input);
      RemoveDotsIs(input[n..], out + input[..n]);
      MovingKeeps(input, out, RemoveDots(input[n..], out + input[..n]));
      SegmentIsMoved(input, out);
    }
  }

  /** On absolute paths without backslashes the check accepts exactly what the algorithm leaves alone. */
  lemma {:induction false} CheckPathIffNothingRemoved(path: seq<Byte>)
    ensures CheckPath(path) <==>
      path != [] && path[0] == 47 && 92 !in path && RemoveDotSegments(path) == path
  {
    if path != [] && path[0] == SLASH {
      CheckPathIsSegmentWise(path);
      InSegments(path, DOT);
      InSegments(path, DOTDOT);
      assert FirstSlash(path) == 0 && path[..0] == [];
      RemoveDotsIs(path, []);
      assert [] + path == path;
    }
  }
}
