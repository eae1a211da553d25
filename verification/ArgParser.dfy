/**
 The argument parser of the Redis module example: a format string says what
 each argument becomes, and a command that tries it twice.

 How Redis turns a string into a number is not part of this model: it is a
 parameter, and everything here holds for any conversion.
 */
module ArgParser {
  import opened Wrappers

  datatype Conversions = Conversions(toLong: string -> Option<int>, toDouble: string -> Option<real>)

  /** One write through an output pointer. */
  datatype Slot =
    | CString(text: string)
    | Length(n: nat)
    | RedisString(arg: string)
    | Long(value: int)
    | Double(x: real)

  /** What one format character makes of one argument; `None` when that is an error. */
  function Convert(conv: Conversions, c: char, arg: string): Option<seq<Slot>> {
    match c
    case 'c' => Some([CString(arg)])
    case 'b' => Some([CString(arg), Length(|arg|)])
    case 's' => Some([RedisString(arg)])
    case 'l' => if conv.toLong(arg).Some? then Some([Long(conv.toLong(arg).value)]) else None
    case 'd' => if conv.toDouble(arg).Some? then Some([Double(conv.toDouble(arg).value)]) else None
    case '*' => Some([])
    case _ => None
  }

  // ---------------------------------------------------------------- the format

  /** The whole format fits the arguments from `offset` on, and every conversion succeeds. */
  predicate Fits(conv: Conversions, argv: seq<string>, offset: nat, fmt: string) {
    && (fmt == [] || offset + |fmt| <= |argv|)
    && forall k :: 0 <= k < |fmt| ==> Convert(conv, fmt[k], argv[offset + k]).Some?
  }

  /** The slots of a format that fits, in order. */
  function Filled(conv: Conversions, argv: seq<string>, offset: nat, fmt: string): seq<Slot>
    requires Fits(conv, argv, offset, fmt)
  {
    if fmt == [] then []
    else
      var last := |fmt| - 1;
      Filled(conv, argv, offset, fmt[..last]) + Convert(conv, fmt[last], argv[offset + last]).value
  }

  lemma FitsMore(conv: Conversions, argv: seq<string>, offset: nat, fmt: string, k: nat)
    requires k < |fmt| && offset + k < |argv| && Fits(conv, argv, offset, fmt[..k])
    ensures Fits(conv, argv, offset, fmt[..k + 1]) <==> Convert(conv, fmt[k], argv[offset + k]).Some?
    ensures Fits(conv, argv, offset, fmt[..k + 1]) ==>
      Filled(conv, argv, offset, fmt[..k + 1])
        == Filled(conv, argv, offset, fmt[..k]) + Convert(conv, fmt[k], argv[offset + k]).value
  {
    assert fmt[..k + 1][..k] == fmt[..k];
    assert fmt[..k + 1][k] == fmt[k];
    forall j | 0 <= j < k ensures fmt[..k + 1][j] == fmt[..k][j] {
    }
  }

  lemma FitsPrefix(conv: Conversions, argv: seq<string>, offset: nat, fmt: string, k: nat)
    requires k <= |fmt| && Fits(conv, argv, offset, fmt)
    ensures Fits(conv, argv, offset, fmt[..k])
  {
  }

  /** What one format character may write for one argument. */
  predicate Writes(conv: Conversions, c: char, arg: string, out: seq<Slot>) {
    || (c == 'c' && out == [CString(arg)])
    || (c == 'b' && out == [CString(arg), Length(|arg|)])
    || (c == 's' && out == [RedisString(arg)])
    || (c == 'l' && conv.toLong(arg).Some? && out == [Long(conv.toLong(arg).value)])
    || (c == 'd' && conv.toDouble(arg).Some? && out == [Double(conv.toDouble(arg).value)])
    || (c == '*' && out == [])
  }

  lemma ConvertWrites(conv: Conversions, c: char, arg: string, out: seq<Slot>)
    ensures Convert(conv, c, arg) == Some(out) <==> Writes(conv, c, arg, out)
  {
  }

  lemma SameTail(a: seq<Slot>, b: seq<Slot>, c: seq<Slot>)
    requires a + b == a + c
    ensures b == c
  {
    assert (a + b)[|a|..] == b && (a + c)[|a|..] == c;
  }

  /** Without a format nothing is written; arguments that do not suffice do not fit. */
  lemma NoFormat(conv: Conversions, argv: seq<string>, offset: nat, fmt: string)
    ensures Fits(conv, argv, offset, "") && Filled(conv, argv, offset, "") == []
    ensures fmt != "" && offset + |fmt| > |argv| ==> !Fits(conv, argv, offset, fmt)
  {
  }

  /**
   One more format character: `c` writes the text, `b` the text and its length,
   `s` the argument itself, `l` and `d` its number if it has one, `*` nothing; no
   other character is accepted.
   */
  lemma OneMoreArgument(conv: Conversions, argv: seq<string>, offset: nat, fmt: string, k: nat, out: seq<Slot>)
    requires k < |fmt| && offset + k < |argv| && Fits(conv, argv, offset, fmt[..k])
    ensures
      && Fits(conv, argv, offset, fmt[..k + 1])
      && Filled(conv, argv, offset, fmt[..k + 1]) == Filled(conv, argv, offset, fmt[..k]) + out
      <==> Writes(conv, fmt[k], argv[offset + k], out)
  {
    FitsMore(conv, argv, offset, fmt, k);
    ConvertWrites(conv, fmt[k], argv[offset + k], out);
    if Fits(conv, argv, offset, fmt[..k + 1]) {
      var before, written := Filled(conv, argv, offset, fmt[..k]), Convert(conv, fmt[k], argv[offset + k]).value;
      if before + written == before + out {
        SameTail(before, written, out);
      }
    }
  }

  /**
   Succeeds exactly when the format fits, and then has written its slots in
   order.  When it fails, what came before the failure has been written.
   */
  method VParseArgs(conv: Conversions, argv: seq<string>, offset: nat, fmt: string)
    returns (ok: bool, out: seq<Slot>, done: nat)
    ensures ok <==> Fits(conv, argv, offset, fmt)
    ensures done <= |fmt| && (ok <==> done == |fmt|)
    ensures Fits(conv, argv, offset, fmt[..done]) && out == Filled(conv, argv, offset, fmt[..done])
    ensures !ok ==> !Fits(conv, argv, offset, fmt[..done + 1])
  {
    var i := offset;
    done, out := 0, [];
    while done < |fmt| && i < |argv|
      invariant done <= |fmt| && i == offset + done
      invariant Fits(conv, argv, offset, fmt[..done]) && out == Filled(conv, argv, offset, fmt[..done])
    {
      var c := fmt[done];
      FitsMore(conv, argv, offset, fmt, done);
      if Fits(conv, argv, offset, fmt) {
        FitsPrefix(conv, argv, offset, fmt, done + 1);
      }
      if c == 'c' {
        out := out + [CString(argv[i])];
      } else if c == 'b' {
        out := out + [CString(argv[i]), Length(|argv[i]|)];
      } else if c == 's' {
        out := out + [RedisString(argv[i])];
      } else if c == 'l' {
        var n := conv.toLong(argv[i]);
        if n.None? {
          return false, out, done;
        }
        out := out + [Long(n.value)];
      } else if c == 'd' {
        var x := conv.toDouble(argv[i]);
        if x.None? {
          return false, out, done;
        }
        out := out + [Double(x.value)];
      } else if c == '*' {
      } else {
        return false, out, done;
      }
      done, i := done + 1, i + 1;
    }
    ok := done == |fmt|;
    if ok {
      assert fmt[..done] == fmt;
    }
  }

  // ---------------------------------------------------------------- finding a token

  /** What strncasecmp compares. */
  function Lower(c: char): char {
    if 'A' <= c <= 'Z' then (c as int + 32) as char else c
  }

  /** The same character, or the two spellings of a letter. */
  predicate SameLetter(c: char, d: char) {
    || c == d
    || ('A' <= c <= 'Z' && d as int == c as int + 32)
    || ('A' <= d <= 'Z' && c as int == d as int + 32)
  }

  lemma SameLetterIff(c: char, d: char)
    ensures SameLetter(c, d) <==> Lower(c) == Lower(d)
  {
  }

  predicate SameToken(a: string, b: string) {
    |a| == |b| && forall k :: 0 <= k < |a| ==> SameLetter(a[k], b[k])
  }

  /** `pos` is the first place where the token stands, or -1 when there is none. */
  ghost predicate IsFirst(token: string, argv: seq<string>, pos: int) {
    if pos == -1 then forall i :: 0 <= i < |argv| ==> !SameToken(argv[i], token)
    else
      && 0 <= pos < |argv| && SameToken(argv[pos], token)
      && forall i :: 0 <= i < pos ==> !SameToken(argv[i], token)
  }

  method ArgIndex(token: string, argv: seq<string>) returns (pos: int)
    ensures IsFirst(token, argv, pos)
  {
    for offset := 0 to |argv|
      invariant forall i :: 0 <= i < offset ==> !SameToken(argv[i], token)
    {
      var same := |argv[offset]| == |token|;
      if same {
        var k := 0;
        while k < |token| && same
          invariant 0 <= k <= |token|
          invariant same <==> forall j :: 0 <= j < k ==> SameLetter(argv[offset][j], token[j])
        {
          SameLetterIff(argv[offset][k], token[k]);
          same := Lower(argv[offset][k]) == Lower(token[k]);
          k := k + 1;
        }
      }
      if same {
        return offset;
      }
    }
    pos := -1;
  }

  /** The token has a first place and the format fits behind it. */
  ghost predicate Found(conv: Conversions, token: string, argv: seq<string>, fmt: string, pos: int) {
    pos >= 0 && IsFirst(token, argv, pos) && Fits(conv, argv, pos + 1, fmt)
  }

  method ParseArgsAfter(conv: Conversions, token: string, argv: seq<string>, fmt: string)
    returns (ok: bool, out: seq<Slot>)
    ensures ok <==> exists pos :: Found(conv, token, argv, fmt, pos)
    ensures forall pos :: ok && Found(conv, token, argv, fmt, pos) ==> out == Filled(conv, argv, pos + 1, fmt)
  {
    var pos := ArgIndex(token, argv);
    if pos < 0 {
      return false, [];
    }
    assert forall p :: p >= 0 && IsFirst(token, argv, p) ==> p == pos;
    var done;
    ok, out, done := VParseArgs(conv, argv, pos + 1, fmt);
    if ok {
      assert fmt[..done] == fmt;
      assert Found(conv, token, argv, fmt, pos);
    }
  }

  // ---------------------------------------------------------------- the command

  /** Signed overflow has no defined result. */
  datatype Reply = WrongArity | Integer(value: int) | Undefined | InvalidArguments

  predicate Int64(x: int) {
    -0x8000_0000_0000_0000 <= x < 0x8000_0000_0000_0000
  }

  function Checked(x: int): Reply {
    if Int64(x) then Integer(x) else Undefined
  }

  /** The first `token` stands at `pos`, and the two arguments after it read as `x` and `y`. */
  ghost predicate Operands(conv: Conversions, token: string, argv: seq<string>, pos: int, x: int, y: int) {
    && pos >= 0 && IsFirst(token, argv, pos) && pos + 2 < |argv|
    && conv.toLong(argv[pos + 1]) == Some(x) && conv.toLong(argv[pos + 2]) == Some(y)
  }

  ghost predicate HasOperands(conv: Conversions, token: string, argv: seq<string>) {
    exists pos, x, y :: Operands(conv, token, argv, pos, x, y)
  }

  /** The format "ll" behind a token is two operands. */
  lemma TwoLongs(conv: Conversions, token: string, argv: seq<string>, pos: int)
    ensures Found(conv, token, argv, "ll", pos) <==> exists x, y :: Operands(conv, token, argv, pos, x, y)
    ensures forall x, y :: Operands(conv, token, argv, pos, x, y) ==>
      Fits(conv, argv, pos + 1, "ll") && Filled(conv, argv, pos + 1, "ll") == [Long(x), Long(y)]
  {
    if pos >= 0 && pos + 2 < |argv| {
      var a, b := conv.toLong(argv[pos + 1]), conv.toLong(argv[pos + 2]);
      assert "ll"[0] == 'l' && "ll"[1] == 'l';
      if a.Some? && b.Some? {
        assert Fits(conv, argv, pos + 1, "ll");
        assert "ll"[..1] == "l" && "l"[..0] == "";
        assert Filled(conv, argv, pos + 1, "l") == [Long(a.value)];
        if IsFirst(token, argv, pos) {
          assert Operands(conv, token, argv, pos, a.value, b.value);
        }
      } else {
        assert !Fits(conv, argv, pos + 1, "ll") by {
          assert Convert(conv, "ll"[0], argv[pos + 1]).None? || Convert(conv, "ll"[1], argv[pos + 2]).None?;
        }
      }
    }
  }

  lemma FoundIffOperands(conv: Conversions, token: string, argv: seq<string>)
    ensures (exists pos :: Found(conv, token, argv, "ll", pos)) <==> HasOperands(conv, token, argv)
  {
    if pos :| Found(conv, token, argv, "ll", pos) {
      TwoLongs(conv, token, argv, pos);
    }
    if HasOperands(conv, token, argv) {
      var pos, x, y :| Operands(conv, token, argv, pos, x, y);
      TwoLongs(conv, token, argv, pos);
    }
  }

  /** What the command is to answer. */
  ghost predicate Answers(conv: Conversions, argv: seq<string>, reply: Reply) {
    if |argv| < 4 then reply == WrongArity
    else if HasOperands(conv, "SUM", argv) then
      forall pos, x, y :: Operands(conv, "SUM", argv, pos, x, y) ==> reply == Checked(x + y)
    else if HasOperands(conv, "PROD", argv) then
      forall pos, x, y :: Operands(conv, "PROD", argv, pos, x, y) ==> reply == Checked(x * y)
    else reply == InvalidArguments
  }

  /** One attempt: the operands of a token, if it has two. */
  method Attempt(conv: Conversions, token: string, argv: seq<string>) returns (ok: bool, x: int, y: int)
    ensures ok <==> HasOperands(conv, token, argv)
    ensures forall pos, a, b :: ok && Operands(conv, token, argv, pos, a, b) ==> a == x && b == y
  {
    var out;
    ok, out := ParseArgsAfter(conv, token, argv, "ll");
    x, y := 0, 0;
    FoundIffOperands(conv, token, argv);
    if ok {
      ghost var pos, a, b :| Operands(conv, token, argv, pos, a, b);
      TwoLongs(conv, token, argv, pos);
      assert Found(conv, token, argv, "ll", pos);
      assert out == [Long(a), Long(b)];
      x, y := out[0].value, out[1].value;
    }
  }

  /** SUM is tried first, then PROD; the reply is the sum, else the product, else an error. */
  method ParseCommand(conv: Conversions, argv: seq<string>) returns (reply: Reply)
    ensures Answers(conv, argv, reply)
  {
    if |argv| < 4 {
      return WrongArity;
    }
    var ok, x, y := Attempt(conv, "SUM", argv);
    if ok {
      return Checked(x + y);
    }
    ok, x, y := Attempt(conv, "PROD", argv);
    if ok {
      return Checked(x * y);
    }
    reply := InvalidArguments;
  }

  // ---------------------------------------------------------------- what the command documents

  lemma AnswerUnique(conv: Conversions, argv: seq<string>, r: Reply, q: Reply)
    requires Answers(conv, argv, r) && Answers(conv, argv, q)
    ensures r == q
  {
    if |argv| >= 4 && HasOperands(conv, "SUM", argv) {
      var pos, x, y :| Operands(conv, "SUM", argv, pos, x, y);
    } else if |argv| >= 4 && HasOperands(conv, "PROD", argv) {
      var pos, x, y :| Operands(conv, "PROD", argv, pos, x, y);
    }
  }

  /** The eight spellings of SUM, and the sixteen of PROD. */
  predicate SpellsSum(t: string) {
    |t| == 3 && t[0] in {'S', 's'} && t[1] in {'U', 'u'} && t[2] in {'M', 'm'}
  }

  predicate SpellsProd(t: string) {
    |t| == 4 && t[0] in {'P', 'p'} && t[1] in {'R', 'r'} && t[2] in {'O', 'o'} && t[3] in {'D', 'd'}
  }

  /** The reply is the number, where 64 bits can hold it. */
  predicate IsNumber(reply: Reply, x: int) {
    reply == if -0x8000_0000_0000_0000 <= x <= 0x7fff_ffff_ffff_ffff then Integer(x) else Undefined
  }

  lemma SpellingsAre(t: string)
    ensures SameToken(t, "SUM") <==> SpellsSum(t)
    ensures SameToken(t, "PROD") <==> SpellsProd(t)
  {
  }

  /** `SUM x y` and `PROD x y`, in any case, right after a command name that is neither. */
  lemma DocumentedForms(conv: Conversions, cmd: string, token: string, a: string, b: string, reply: Reply)
    requires conv.toLong(a).Some? && conv.toLong(b).Some?
    requires !SpellsSum(cmd) && !SpellsProd(cmd)
    requires Answers(conv, [cmd, token, a, b], reply)
    ensures SpellsSum(token) ==> IsNumber(reply, conv.toLong(a).value + conv.toLong(b).value)
    ensures SpellsProd(token) ==> IsNumber(reply, conv.toLong(a).value * conv.toLong(b).value)
    ensures !SpellsSum(token) && !SpellsProd(token) ==> reply == InvalidArguments
  {
    SpellingsAre(cmd);
    SpellingsAre(token);
    var argv, x, y := [cmd, token, a, b], conv.toLong(a).value, conv.toLong(b).value;
    if SameToken(token, "SUM") {
      assert Operands(conv, "SUM", argv, 1, x, y);
    }
    if SameToken(token, "PROD") {
      assert Operands(conv, "PROD", argv, 1, x, y);
      assert !SameToken(argv[0], "SUM") && !SameToken(argv[1], "SUM");
    }
  }

  /** Only the first SUM counts: a later one with two numbers behind it does not help. */
  lemma OnlyFirstTokenCounts(conv: Conversions, cmd: string, bad: string, a: string, b: string, reply: Reply)
    requires !SameToken(cmd, "SUM") && !SameToken(cmd, "PROD") && !SameToken(bad, "PROD")
    requires !SameToken(a, "PROD") && !SameToken(b, "PROD") && conv.toLong(bad).None?
    requires Answers(conv, [cmd, "SUM", bad, "SUM", a, b], reply)
    ensures reply == InvalidArguments
  {
    var argv := [cmd, "SUM", bad, "SUM", a, b];
    assert SameToken(argv[1], "SUM");
    assert forall pos :: pos >= 0 && IsFirst("SUM", argv, pos) ==> pos == 1;
    assert !SameToken(argv[1], "PROD") && !SameToken(argv[3], "PROD");
    assert forall i :: 0 <= i < |argv| ==> !SameToken(argv[i], "PROD");
  }
}
