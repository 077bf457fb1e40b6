/** Both passes of remove_comments, one behind the other, on texts that hold comments of
    both kinds. The first pass reads line comments as if they were text: which of them it
    leaves for the second pass is decided exactly, and a text whose line comments all are
    such loses its comments and nothing else. */
module JsonCommentPasses {
  import opened Bytes
  import opened JsonGrammar
  import opened JsonComments

  const STAR: byte := '*' as int

  // ------------------------------------------------------ the pass over block comments

  function Blocks(t: seq<byte>, q: Scanner): (r: seq<byte>)
    ensures |r| == |t|
  {
    Strip(t, q, BLOCK_START, BLOCK_END)
  }

  /** The pass over line comments. */
  function Lines(t: seq<byte>): (r: seq<byte>)
    ensures |r| == |t|
  {
    Strip(t, OUTSIDE, LINE_START, LINE_END)
  }

  /** The state behind t, unless a comment is still open there. */
  function After(t: seq<byte>, q: Scanner): Option<Scanner>
    decreases |t|
  {
    if t == [] then Some(q)
    else if StartsComment(t, q, BLOCK_START) then
      match CommentLength(t, BLOCK_START, BLOCK_END)
      case None => None
      case Some(n) => After(t[n..], Scanner(q.inString, false))
    else After(t[1..], Next(q, t[0]))
  }

  /** The text of a line comment from some byte on: the newline is its last byte. */
  predicate LineRest(t: seq<byte>) {
    t != [] && t[|t| - 1] == NEWLINE && NEWLINE !in t[..|t| - 1]
  }

  lemma LineRestTail(t: seq<byte>, n: nat)
    requires LineRest(t) && n < |t|
    ensures LineRest(t[n..])
  {
    assert t[n..][..|t[n..]| - 1] == t[..|t| - 1][n..];
  }

  lemma StartsAhead(t: seq<byte>, b: seq<byte>, q: Scanner)
    requires LineRest(t)
    ensures StartsComment(t + b, q, BLOCK_START) <==> StartsComment(t, q, BLOCK_START)
  {
    if |t| == 1 {
      if At(t + b, 0, BLOCK_START) { AtByte(t + b, 0, BLOCK_START, 0); }
    } else {
      assert (t + b)[0..2] == t[0..2];
    }
  }

  lemma AtAhead(t: seq<byte>, b: seq<byte>, k: nat)
    requires LineRest(t) && k < |t|
    ensures At(t + b, k, BLOCK_END) <==> At(t, k, BLOCK_END)
  {
    if k + 2 <= |t| {
      assert (t + b)[k..k + 2] == t[k..k + 2];
    } else if At(t + b, k, BLOCK_END) {
      AtByte(t + b, k, BLOCK_END, 0);
    }
  }

  /** A comment that is closed in the line is closed at the same place in the text, short
      of the newline. */
  lemma ClosedAhead(t: seq<byte>, b: seq<byte>, n: nat)
    requires LineRest(t) && CommentLength(t, BLOCK_START, BLOCK_END) == Some(n)
    ensures n < |t| && CommentLength(t + b, BLOCK_START, BLOCK_END) == Some(n)
  {
    FindIsFirst(t, 2, BLOCK_END);
    FindIsFirst(t + b, 2, BLOCK_END);
    AtByte(t, n - 2, BLOCK_END, 1);
    forall k | 2 <= k < |t| ensures At(t + b, k, BLOCK_END) <==> At(t, k, BLOCK_END) { AtAhead(t, b, k); }
  }

  lemma BlocksText(t: seq<byte>, q: Scanner)
    requires t != [] && !StartsComment(t, q, BLOCK_START)
    ensures Blocks(t, q) == [t[0]] + Blocks(t[1..], Next(q, t[0]))
  {
  }

  lemma BlocksComment(t: seq<byte>, q: Scanner, n: nat)
    requires StartsComment(t, q, BLOCK_START) && CommentLength(t, BLOCK_START, BLOCK_END) == Some(n)
    ensures Blocks(t, q) == Spaces(n) + Blocks(t[n..], Scanner(q.inString, false))
  {
  }

  lemma Regrouped(a: seq<byte>, b: seq<byte>, c: seq<byte>)
    ensures a + (b + c) == a + b + c
  {
  }

  lemma DropAhead(t: seq<byte>, b: seq<byte>, n: nat)
    requires n <= |t|
    ensures (t + b)[n..] == t[n..] + b
  {
  }

  /** What the pass makes of a line, when no comment is left open in it, and of the text
      behind it. */
  lemma {:induction false} BlocksSplit(t: seq<byte>, b: seq<byte>, q: Scanner)
    requires LineRest(t) && After(t, q).Some?
    ensures Blocks(t + b, q) == Blocks(t, q) + Blocks(b, After(t, q).value)
    ensures Blocks(t, q)[|t| - 1] == NEWLINE && !After(t, q).value.escaped
    decreases |t|
  {
    if StartsComment(t, q, BLOCK_START) {
      BlocksSplitComment(t, b, q, CommentLength(t, BLOCK_START, BLOCK_END).value);
    } else if |t| == 1 {
      BlocksSplitLast(t, b, q);
    } else {
      BlocksSplitText(t, b, q);
    }
  }

  lemma BlocksSplitLast(t: seq<byte>, b: seq<byte>, q: Scanner)
    requires LineRest(t) && |t| == 1 && !StartsComment(t, q, BLOCK_START)
    ensures After(t, q) == Some(Next(q, NEWLINE)) && Blocks(t, q) == [NEWLINE]
    ensures Blocks(t + b, q) == Blocks(t, q) + Blocks(b, Next(q, NEWLINE))
  {
    StartsAhead(t, b, q);
    BlocksText(t + b, q);
    DropAhead(t, b, 1);
    assert t == [NEWLINE] && t[1..] == [];
  }

  lemma {:induction false} BlocksSplitText(t: seq<byte>, b: seq<byte>, q: Scanner)
    requires LineRest(t) && After(t, q).Some? && |t| > 1 && !StartsComment(t, q, BLOCK_START)
    ensures Blocks(t + b, q) == Blocks(t, q) + Blocks(b, After(t, q).value)
    ensures Blocks(t, q)[|t| - 1] == NEWLINE && !After(t, q).value.escaped
    decreases |t|, 0
  {
    var q' := Next(q, t[0]);
    StartsAhead(t, b, q);
    BlocksText(t, q);
    BlocksText(t + b, q);
    DropAhead(t, b, 1);
    LineRestTail(t, 1);
    BlocksSplit(t[1..], b, q');
    Regrouped([t[0]], Blocks(t[1..], q'), Blocks(b, After(t, q).value));
  }

  lemma {:induction false} BlocksSplitComment(t: seq<byte>, b: seq<byte>, q: Scanner, n: nat)
    requires LineRest(t) && After(t, q).Some?
    requires StartsComment(t, q, BLOCK_START) && CommentLength(t, BLOCK_START, BLOCK_END) == Some(n)
    ensures Blocks(t + b, q) == Blocks(t, q) + Blocks(b, After(t, q).value)
    ensures Blocks(t, q)[|t| - 1] == NEWLINE && !After(t, q).value.escaped
    decreases |t|, 0
  {
    var q' := Scanner(q.inString, false);
    StartsAhead(t, b, q);
    ClosedAhead(t, b, n);
    BlocksComment(t, q, n);
    BlocksComment(t + b, q, n);
    DropAhead(t, b, n);
    LineRestTail(t, n);
    BlocksSplit(t[n..], b, q');
    Regrouped(Spaces(n), Blocks(t[n..], q'), Blocks(b, After(t, q).value));
  }

  /** The pass keeps a byte or blanks it. */
  lemma {:induction false} StripByte(t: seq<byte>, q: Scanner, start: seq<byte>, end: seq<byte>, k: nat)
    requires |start| > 0 && |end| > 0 && k < |t|
    ensures Strip(t, q, start, end)[k] in {t[k], SPACE}
    decreases |t|
  {
    if StartsComment(t, q, start) {
      var c := CommentLength(t, start, end);
      if c.Some? && k >= c.value {
        StripByte(t[c.value..], Scanner(q.inString, false), start, end, k - c.value);
      }
    } else if k > 0 {
      StripByte(t[1..], Next(q, t[0]), start, end, k - 1);
    }
  }

  // ---------------------------------------------------------------- a line comment

  function LineText(body: seq<byte>): seq<byte> {
    LINE_START + body + LINE_END
  }

  /** The pass over block comments leaves the start of the line comment, closes in it what
      it opens in it, and comes out of it outside strings. */
  predicate Intact(body: seq<byte>) {
    (body != [] ==> body[0] != STAR) && After(LineText(body), OUTSIDE) == Some(OUTSIDE)
  }

  lemma LineTextIsLine(body: seq<byte>)
    requires NEWLINE !in body
    ensures LineRest(LineText(body))
  {
    assert LineText(body)[..|LineText(body)| - 1] == LINE_START + body;
  }

  /** In that pass it stays a line comment. */
  lemma LineStays(body: seq<byte>) returns (kept: seq<byte>)
    requires NEWLINE !in body && (body != [] ==> body[0] != STAR) && After(LineText(body), OUTSIDE).Some?
    ensures |kept| == |body| && NEWLINE !in kept && Blocks(LineText(body), OUTSIDE) == LineText(kept)
  {
    var t := LineText(body);
    var r := Blocks(t, OUTSIDE);
    LineTextIsLine(body);
    BlocksSplit(t, [], OUTSIDE);
    StartKept(t);
    kept := r[2..|r| - 1];
    forall k | 0 <= k < |kept| ensures kept[k] != NEWLINE {
      StripByte(t, OUTSIDE, BLOCK_START, BLOCK_END, k + 2);
      assert t[k + 2] == body[k];
    }
    assert r == [r[0], r[1]] + kept + [r[|r| - 1]];
  }

  lemma StartKept(t: seq<byte>)
    requires |t| > 2 && t[0] == SLASH && t[1] == SLASH && t[2] != STAR
    ensures Blocks(t, OUTSIDE)[0] == SLASH && Blocks(t, OUTSIDE)[1] == SLASH
  {
    if At(t, 0, BLOCK_START) { AtByte(t, 0, BLOCK_START, 1); }
    BlocksText(t, OUTSIDE);
    if At(t[1..], 0, BLOCK_START) { AtByte(t[1..], 0, BLOCK_START, 1); }
    BlocksText(t[1..], OUTSIDE);
  }

  lemma LineBlanked(body: seq<byte>, b: seq<byte>)
    requires NEWLINE !in body
    ensures Lines(LineText(body) + b) == Spaces(|LineText(body)|) + Lines(b)
  {
    var t := body + LINE_END;
    FindIsFirst(t, 0, LINE_END);
    AtSplit(body, LINE_END, []);
    assert t + [] == t;
    forall k | 0 <= k < |body| ensures !At(t, k, LINE_END) {
      if At(t, k, LINE_END) { AtByte(t, k, LINE_END, 0); }
    }
    CommentHead(body, b, LINE_START, LINE_END);
    assert LineText(body) + b == LINE_START + body + LINE_END + b;
  }

  /** Together the passes blank it, and treat what follows as if it stood alone. */
  lemma IntactIsBlanked(body: seq<byte>, b: seq<byte>)
    requires NEWLINE !in body && Intact(body)
    ensures WithoutComments(LineText(body) + b) == Spaces(|LineText(body)|) + WithoutComments(b)
  {
    LineTextIsLine(body);
    BlocksSplit(LineText(body), b, OUTSIDE);
    var kept := LineStays(body);
    LineBlanked(kept, Blocks(b, OUTSIDE));
  }

  /** Without a start token in it a text stays. */
  lemma {:induction false} NothingStarts(t: seq<byte>, q: Scanner, start: seq<byte>, end: seq<byte>)
    requires |start| > 0 && |end| > 0 && forall k :: 0 <= k < |t| ==> !At(t, k, start)
    ensures Strip(t, q, start, end) == t
    decreases |t|
  {
    if t != [] {
      forall k | 0 <= k < |t[1..]| ensures !At(t[1..], k, start) {
        if At(t[1..], k, start) {
          assert t[1..][k..k + |start|] == t[k + 1..k + 1 + |start|];
          assert At(t, k + 1, start);
        }
      }
      NothingStarts(t[1..], Next(q, t[0]), start, end);
    }
  }

  /** Nor has it one when no byte is followed by the token's second. */
  lemma NoPair(t: seq<byte>, start: seq<byte>)
    requires |start| == 2 && forall k :: 0 < k < |t| ==> !(t[k - 1] == start[0] && t[k] == start[1])
    ensures forall k :: 0 <= k < |t| ==> !At(t, k, start)
  {
    forall k | 0 <= k < |t| ensures !At(t, k, start) {
      if At(t, k, start) {
        AtByte(t, k, start, 0);
        AtByte(t, k, start, 1);
      }
    }
  }

  lemma {:induction false} QuietInString(t: seq<byte>)
    requires QUOTE !in t && BACKSLASH !in t
    ensures Silent(t, INSIDE, INSIDE)
  {
    if t != [] { QuietInString(t[1..]); }
  }

  const EMPTY_BLOCK: seq<byte> := [SLASH, STAR, STAR, SLASH]

  lemma EmptyBlockInString()
    ensures Blocks(EMPTY_BLOCK, INSIDE) == EMPTY_BLOCK
  {
    var t := EMPTY_BLOCK;
    QuietInString(t);
    StripKeeps(t, [], INSIDE, BLOCK_START, BLOCK_END);
    assert t + [] == t;
  }

  lemma EmptyBlockBlanked()
    ensures Lines(EMPTY_BLOCK) == EMPTY_BLOCK && WithoutComments(EMPTY_BLOCK) == Spaces(4)
  {
    var t := EMPTY_BLOCK;
    NoPair(t, LINE_START);
    NothingStarts(t, OUTSIDE, LINE_START, LINE_END);
    var body: seq<byte> := [];
    assert BLOCK_START + body + BLOCK_END + body == t && body + BLOCK_END == BLOCK_END;
    CommentHead(body, body, BLOCK_START, BLOCK_END);
    assert Blocks(t, OUTSIDE) == Spaces(4);
    NoPair(Spaces(4), LINE_START);
    NothingStarts(Spaces(4), OUTSIDE, LINE_START, LINE_END);
  }

  const OPEN_END: seq<byte> := [LBRACKET, STAR, SLASH]

  lemma OpenEnd()
    ensures WithoutComments(OPEN_END) == OPEN_END
  {
    NoPair(OPEN_END, BLOCK_START);
    NothingStarts(OPEN_END, OUTSIDE, BLOCK_START, BLOCK_END);
    NoPair(OPEN_END, LINE_START);
    NothingStarts(OPEN_END, OUTSIDE, LINE_START, LINE_END);
  }

  /** A comment left open in a line takes the next bracket with it. */
  lemma {:induction false} OpenSwallows(t: seq<byte>, q: Scanner)
    requires LineRest(t) && After(t, q) == None
    ensures Blocks(t + OPEN_END, q)[|t|] == SPACE
    decreases |t|
  {
    var b := OPEN_END;
    StartsAhead(t, b, q);
    if StartsComment(t, q, BLOCK_START) && CommentLength(t, BLOCK_START, BLOCK_END) == None {
      OpenClosed(t);
      BlocksComment(t + b, q, |t| + 3);
    } else if StartsComment(t, q, BLOCK_START) {
      var n := CommentLength(t, BLOCK_START, BLOCK_END).value;
      ClosedAhead(t, b, n);
      BlocksComment(t + b, q, n);
      DropAhead(t, b, n);
      LineRestTail(t, n);
      OpenSwallows(t[n..], Scanner(q.inString, false));
    } else {
      BlocksText(t + b, q);
      DropAhead(t, b, 1);
      assert |t| > 1;
      LineRestTail(t, 1);
      OpenSwallows(t[1..], Next(q, t[0]));
    }
  }

  lemma OpenClosed(t: seq<byte>)
    requires LineRest(t) && CommentLength(t, BLOCK_START, BLOCK_END) == None && |t| > 2
    ensures CommentLength(t + OPEN_END, BLOCK_START, BLOCK_END) == Some(|t| + 3)
  {
    var s := t + OPEN_END;
    FindIsFirst(t, 2, BLOCK_END);
    FindIsFirst(s, 2, BLOCK_END);
    forall k | 2 <= k < |t| ensures !At(s, k, BLOCK_END) { AtAhead(t, OPEN_END, k); }
    if At(s, |t|, BLOCK_END) { AtByte(s, |t|, BLOCK_END, 0); }
    assert s[|t| + 1..|t| + 3] == BLOCK_END;
    assert At(s, |t| + 1, BLOCK_END);
  }

  lemma DifferAt(x: seq<byte>, n: nat, y: seq<byte>, k: nat)
    requires k < |x| && k < n + |y| && x[k] != if k < n then SPACE else y[k - n]
    ensures x != Spaces(n) + y
  {
    assert (Spaces(n) + y)[k] != x[k];
  }

  /** Any other line comment misleads them in front of some text. */
  lemma OthersMislead(body: seq<byte>) returns (b: seq<byte>)
    requires NEWLINE !in body && !Intact(body)
    ensures WithoutComments(LineText(body) + b) != Spaces(|LineText(body)|) + WithoutComments(b)
  {
    var t := LineText(body);
    LineTextIsLine(body);
    if body != [] && body[0] == STAR {
      b := [];
      StarMisleads(t);
      assert t + [] == t;
      DifferAt(WithoutComments(t + b), |t|, WithoutComments(b), 0);
    } else if After(t, OUTSIDE) == None {
      b := OPEN_END;
      OpenSwallows(t, OUTSIDE);
      StripByte(Blocks(t + b, OUTSIDE), OUTSIDE, LINE_START, LINE_END, |t|);
      OpenEnd();
      DifferAt(WithoutComments(t + b), |t|, WithoutComments(b), |t|);
    } else {
      b := EMPTY_BLOCK;
      StringMisleads(body);
      EmptyBlockBlanked();
      DifferAt(WithoutComments(t + b), |t|, WithoutComments(b), |t|);
    }
  }

  /** Behind it the text is read as if it stood in a string. */
  lemma StringMisleads(body: seq<byte>)
    requires NEWLINE !in body && (body != [] ==> body[0] != STAR) && After(LineText(body), OUTSIDE).Some?
    requires After(LineText(body), OUTSIDE) != Some(OUTSIDE)
    ensures WithoutComments(LineText(body) + EMPTY_BLOCK) == Spaces(|LineText(body)|) + EMPTY_BLOCK
  {
    LineTextIsLine(body);
    BlocksSplit(LineText(body), EMPTY_BLOCK, OUTSIDE);
    assert After(LineText(body), OUTSIDE) == Some(INSIDE);
    EmptyBlockInString();
    var kept := LineStays(body);
    LineBlanked(kept, EMPTY_BLOCK);
    EmptyBlockBlanked();
  }

  lemma StarMisleads(t: seq<byte>)
    requires |t| > 2 && t[0] == SLASH && t[1] == SLASH && t[2] == STAR
    ensures WithoutComments(t)[0] == SLASH
  {
    if At(t, 0, BLOCK_START) { AtByte(t, 0, BLOCK_START, 1); }
    BlocksText(t, OUTSIDE);
    assert At(t[1..], 0, BLOCK_START);
    var r := Blocks(t, OUTSIDE);
    assert r[1] == SPACE;
    if At(r, 0, LINE_START) { AtByte(r, 0, LINE_START, 1); }
  }

  /** Exactly which line comments the two passes blank in front of every text. */
  lemma LineCommentBlanked(body: seq<byte>)
    requires NEWLINE !in body
    ensures Intact(body) <==>
            forall b :: WithoutComments(LineText(body) + b) == Spaces(|LineText(body)|) + WithoutComments(b)
  {
    if Intact(body) {
      forall b ensures WithoutComments(LineText(body) + b) == Spaces(|LineText(body)|) + WithoutComments(b) {
        IntactIsBlanked(body, b);
      }
    } else {
      var b := OthersMislead(body);
    }
  }

  // -------------------------------------------------------------------- whole texts

  /** Text without a slash outside its strings, or a comment of either kind. */
  datatype Part = Code(text: seq<byte>) | Block(body: seq<byte>) | Line(body: seq<byte>)

  predicate Proper(p: Part) {
    match p
    case Code(t) => Silent(t, OUTSIDE, OUTSIDE)
    case Block(body) => Find(body + BLOCK_END, 0, BLOCK_END) == Some(|body|)
    case Line(body) => NEWLINE !in body && Intact(body)
  }

  function PartText(p: Part): seq<byte> {
    match p
    case Code(t) => t
    case Block(body) => BLOCK_START + body + BLOCK_END
    case Line(body) => LineText(body)
  }

  function PartsText(ps: seq<Part>): seq<byte> {
    if ps == [] then [] else PartText(ps[0]) + PartsText(ps[1..])
  }

  /** The comments as white space, everything else where it was. */
  function Blanked(ps: seq<Part>): seq<byte> {
    if ps == [] then []
    else (if ps[0].Code? then ps[0].text else Spaces(|PartText(ps[0])|)) + Blanked(ps[1..])
  }

  lemma CodeStays(t: seq<byte>, b: seq<byte>)
    requires Silent(t, OUTSIDE, OUTSIDE)
    ensures WithoutComments(t + b) == t + WithoutComments(b)
  {
    StripKeeps(t, b, OUTSIDE, BLOCK_START, BLOCK_END);
    StripKeeps(t, Blocks(b, OUTSIDE), OUTSIDE, LINE_START, LINE_END);
  }

  lemma BlockIsBlanked(body: seq<byte>, b: seq<byte>)
    requires Find(body + BLOCK_END, 0, BLOCK_END) == Some(|body|)
    ensures WithoutComments(BLOCK_START + body + BLOCK_END + b)
         == Spaces(|BLOCK_START + body + BLOCK_END|) + WithoutComments(b)
  {
    var blank := Spaces(|BLOCK_START| + |body| + |BLOCK_END|);
    CommentHead(body, b, BLOCK_START, BLOCK_END);
    PlainIsSilent(blank);
    StripKeeps(blank, Blocks(b, OUTSIDE), OUTSIDE, LINE_START, LINE_END);
  }

  /** Of a text with comments of both kinds every comment is blanked and nothing else, when
      each line comment is one that the first pass leaves intact. */
  lemma {:induction false} CommentsBlanked(ps: seq<Part>)
    requires forall p <- ps :: Proper(p)
    ensures WithoutComments(PartsText(ps)) == Blanked(ps)
  {
    if ps != [] {
      var rest := PartsText(ps[1..]);
      CommentsBlanked(ps[1..]);
      assert Proper(ps[0]);
      match ps[0]
      case Code(t) => CodeStays(t, rest);
      case Block(body) => BlockIsBlanked(body, rest);
      case Line(body) => IntactIsBlanked(body, rest);
    }
  }

  // ------------------------------------------------------------------- one that fails

  const QUOTE_LINE: seq<byte> := [SLASH, SLASH, QUOTE, NEWLINE]
  const ONE_ITEM: seq<byte> := [LBRACKET, SLASH, STAR, STAR, SLASH, '1' as int, RBRACKET]

  lemma AfterText(t: seq<byte>, q: Scanner, rest: seq<byte>)
    requires t != [] && rest == t[1..] && (t[0] != SLASH || (rest != [] ==> rest[0] != STAR))
    ensures After(t, q) == After(rest, Next(q, t[0]))
  {
    if At(t, 0, BLOCK_START) {
      AtByte(t, 0, BLOCK_START, 0);
      AtByte(t, 0, BLOCK_START, 1);
    }
  }

  lemma QuoteLine()
    ensures LineText([QUOTE]) == QUOTE_LINE && After(QUOTE_LINE, OUTSIDE) == Some(INSIDE)
  {
    AfterText(QUOTE_LINE, OUTSIDE, [SLASH, QUOTE, NEWLINE]);
    AfterText([SLASH, QUOTE, NEWLINE], OUTSIDE, [QUOTE, NEWLINE]);
    AfterText([QUOTE, NEWLINE], OUTSIDE, [NEWLINE]);
    AfterText([NEWLINE], INSIDE, []);
  }

  // A line comment of one quote, and on the next line an array that starts with an empty
  // block comment: the block comment stays.
  lemma QuoteMisleads()
    ensures WithoutComments(QUOTE_LINE + ONE_ITEM) == Spaces(4) + ONE_ITEM
  {
    var b := ONE_ITEM;
    QuoteLine();
    LineTextIsLine([QUOTE]);
    BlocksSplit(QUOTE_LINE, b, OUTSIDE);
    QuietInString(b);
    StripKeeps(b, [], INSIDE, BLOCK_START, BLOCK_END);
    assert b + [] == b;
    var kept := LineStays([QUOTE]);
    LineBlanked(kept, b);
    NoPair(b, LINE_START);
    NothingStarts(b, OUTSIDE, LINE_START, LINE_END);
  }

  /** So the text is refused, where an array of one number was meant. */
  lemma QuotedCommentRefused(s: CString)
    requires s == QUOTE_LINE + ONE_ITEM + [0]
    ensures ParseWithComments(s).Fail?
  {
    assert s[..|s| - 1] == QUOTE_LINE + ONE_ITEM;
    QuoteMisleads();
    SlashRefused(Spaces(4) + ONE_ITEM + [0]);
  }

  lemma SlashRefused(s: CString)
    requires |s| > 5 && s[0] == s[1] == s[2] == s[3] == SPACE && s[4] == LBRACKET && s[5] == SLASH
    ensures ParseValue(s, 0, 0).Fail?
  {
    assert SkipWs(s, 4) == 4 && SkipWs(s, 2) == 4 && SkipWs(s, 0) == 4 && SkipWs(s, 5) == 5;
    assert ParseValue(s, 5, 1).Fail?;
    assert ParseArray(s, 4, 1).Fail?;
  }
}
