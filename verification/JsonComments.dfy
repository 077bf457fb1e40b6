/** remove_comments and json_parse_string_with_comments. The in-place loop is proved
    against Strip, a function on the text that knows of strings and escapes. On top of
    that: a comment between texts that hold none becomes as many spaces, printed trees
    hold no comment whatever their strings contain, and so the parser with comments
    inverts the printer as the plain one does. */
module JsonComments {
  import opened Bytes
  import opened JsonTree
  import opened JsonText
  import opened JsonGrammar
  import opened JsonNumberProofs
  import opened JsonRoundTrip
  import opened JsonTheorems
  import opened JsonParser

  const BLOCK_START: seq<byte> := ['/' as int, '*' as int]
  const BLOCK_END: seq<byte> := ['*' as int, '/' as int]
  const LINE_START: seq<byte> := ['/' as int, '/' as int]
  const LINE_END: seq<byte> := ['\n' as int]

  /** in_string and escaped. */
  datatype Scanner = Scanner(inString: bool, escaped: bool)

  const OUTSIDE := Scanner(false, false)

  /** One character that starts no comment. */
  function Next(q: Scanner, c: byte): Scanner {
    if c == BACKSLASH && !q.escaped then Scanner(q.inString, true)
    else if c == QUOTE && !q.escaped then Scanner(!q.inString, false)
    else Scanner(q.inString, false)
  }

  function Spaces(n: nat): (t: seq<byte>)
    ensures |t| == n
  {
    seq(n, _ => SPACE)
  }

  predicate StartsComment(t: seq<byte>, q: Scanner, start: seq<byte>) {
    t != [] && !q.inString && At(t, 0, start) && !(t[0] in {BACKSLASH, QUOTE} && !q.escaped)
  }

  /** The length of the comment that starts t, unless it is unterminated. */
  function CommentLength(t: seq<byte>, start: seq<byte>, end: seq<byte>): (r: Option<nat>)
    ensures r.Some? ==> |start| + |end| <= r.value <= |t|
  {
    match Find(t, |start|, end)
    case None => None
    case Some(k) => Some(k + |end|)
  }

  /** What remove_comments makes of the text t read in state q: comments become as many
      spaces, an unterminated comment loses only its start token. */
  function Strip(t: seq<byte>, q: Scanner, start: seq<byte>, end: seq<byte>): (r: seq<byte>)
    requires |start| > 0 && |end| > 0
    ensures |r| == |t|
    decreases |t|
  {
    if t == [] then []
    else if StartsComment(t, q, start) then
      match CommentLength(t, start, end)
      case None => Spaces(|start|) + t[|start|..]
      case Some(n) => Spaces(n) + Strip(t[n..], Scanner(q.inString, false), start, end)
    else [t[0]] + Strip(t[1..], Next(q, t[0]), start, end)
  }

  /** The state after reading text that contains no comment. */
  function Scan(t: seq<byte>, q: Scanner): Scanner {
    if t == [] then q else Scan(t[1..], Next(q, t[0]))
  }

  /** No slash stands outside a string. */
  predicate Quiet(t: seq<byte>, q: Scanner) {
    t == [] || ((t[0] == SLASH ==> q.inString) && Quiet(t[1..], Next(q, t[0])))
  }

  lemma {:induction false} ScanAppend(a: seq<byte>, b: seq<byte>, q: Scanner)
    ensures Scan(a + b, q) == Scan(b, Scan(a, q))
    ensures Quiet(a + b, q) <==> Quiet(a, q) && Quiet(b, Scan(a, q))
    decreases |a|
  {
    if a == [] {
      assert a + b == b;
    } else {
      ScanAppend(a[1..], b, Next(q, a[0]));
      assert (a + b)[1..] == a[1..] + b;
    }
  }

  /** How many backslashes end a text. */
  function Backslashes(t: seq<byte>): nat {
    if t == [] || t[|t| - 1] != BACKSLASH then 0 else 1 + Backslashes(t[..|t| - 1])
  }

  /** How many quotes stand in a text with an even number of backslashes right in front. */
  function OpenQuotes(t: seq<byte>): nat {
    if t == [] then 0
    else
      var front := t[..|t| - 1];
      OpenQuotes(front) + if t[|t| - 1] == QUOTE && Backslashes(front) % 2 == 0 then 1 else 0
  }

  /** in_string and escaped, told from the text that was read. */
  lemma {:induction false} ScannerTells(t: seq<byte>)
    ensures Scan(t, OUTSIDE) == Scanner(OpenQuotes(t) % 2 == 1, Backslashes(t) % 2 == 1)
    decreases |t|
  {
    if t != [] {
      var front, c := t[..|t| - 1], t[|t| - 1];
      ScannerTells(front);
      ScanAppend(front, [c], OUTSIDE);
      assert front + [c] == t && [c][1..] == [];
      ScanOne(c, Scan(front, OUTSIDE));
    }
  }

  lemma ScanOne(c: byte, q: Scanner)
    ensures Scan([c], q) == Next(q, c)
  {
    assert [c][1..] == [];
  }

  /** Text without a slash outside its strings goes through unchanged, whatever
      follows it. */
  lemma {:induction false} StripKeeps(a: seq<byte>, b: seq<byte>, q: Scanner, start: seq<byte>, end: seq<byte>)
    requires |start| > 0 && start[0] == SLASH && |end| > 0 && Quiet(a, q)
    ensures Strip(a + b, q, start, end) == a + Strip(b, Scan(a, q), start, end)
    decreases |a|
  {
    if a == [] {
      assert a + b == b;
    } else {
      KeepsFirst(a, b, q, start, end);
      StripKeeps(a[1..], b, Next(q, a[0]), start, end);
      FirstInFront(a, Strip(b, Scan(a, q), start, end));
    }
  }

  lemma KeepsFirst(a: seq<byte>, b: seq<byte>, q: Scanner, start: seq<byte>, end: seq<byte>)
    requires |start| > 0 && start[0] == SLASH && |end| > 0 && a != [] && (a[0] == SLASH ==> q.inString)
    ensures Strip(a + b, q, start, end) == [a[0]] + Strip(a[1..] + b, Next(q, a[0]), start, end)
  {
    var t := a + b;
    assert t[0] == a[0] && t[1..] == a[1..] + b;
    if At(t, 0, start) { AtByte(t, 0, start, 0); }
  }

  lemma FirstInFront(a: seq<byte>, r: seq<byte>)
    requires a != []
    ensures [a[0]] + (a[1..] + r) == a + r
  {
  }

  lemma AtSplit(a: seq<byte>, t: seq<byte>, b: seq<byte>)
    ensures At(a + t + b, |a|, t)
  {
    assert (a + t + b)[|a|..|a| + |t|] == t;
  }

  /** The first end token behind the start token closes the comment. */
  lemma FirstEnd(start: seq<byte>, body: seq<byte>, b: seq<byte>, end: seq<byte>)
    requires |end| > 0 && Find(body + end, 0, end) == Some(|body|)
    ensures Find(start + body + end + b, |start|, end) == Some(|start| + |body|)
  {
    var t := start + body + end + b;
    AtSplit(start + body, end, b);
    FindIsFirst(t, |start|, end);
    var r := Find(t, |start|, end).value;
    if r < |start| + |body| { NoEarlierEnd(start, body, b, end, r - |start|); }
  }

  lemma NoEarlierEnd(start: seq<byte>, body: seq<byte>, b: seq<byte>, end: seq<byte>, k: nat)
    requires |end| > 0 && Find(body + end, 0, end) == Some(|body|) && k < |body|
    ensures !At(start + body + end + b, |start| + k, end)
  {
    FindIsFirst(body + end, 0, end);
    assert !At(body + end, k, end);
    assert start + body + end + b == start + (body + end) + b;
    SliceInside(start, body + end, b, k, |end|);
  }

  lemma SliceInside(a: seq<byte>, m: seq<byte>, b: seq<byte>, k: nat, n: nat)
    requires k + n <= |m|
    ensures (a + m + b)[|a| + k..|a| + k + n] == m[k..k + n]
  {
  }

  lemma CommentHead(body: seq<byte>, b: seq<byte>, start: seq<byte>, end: seq<byte>)
    requires |start| > 0 && start[0] == SLASH && |end| > 0
    requires Find(body + end, 0, end) == Some(|body|)
    ensures Strip(start + body + end + b, OUTSIDE, start, end)
         == Spaces(|start| + |body| + |end|) + Strip(b, OUTSIDE, start, end)
  {
    var t := start + body + end + b;
    AtSplit([], start, body + end + b);
    assert [] + start + (body + end + b) == t;
    assert StartsComment(t, OUTSIDE, start);
    FirstEnd(start, body, b, end);
    assert t[|start| + |body| + |end|..] == b;
  }

  /** A comment outside the strings becomes white space of the same length, and what
      stands before and behind it is treated as if it stood alone. */
  lemma CommentBlanked(a: seq<byte>, body: seq<byte>, b: seq<byte>, start: seq<byte>, end: seq<byte>)
    requires |start| > 0 && start[0] == SLASH && |end| > 0
    requires Quiet(a, OUTSIDE) && Scan(a, OUTSIDE) == OUTSIDE
    requires Find(body + end, 0, end) == Some(|body|)
    ensures Strip(a + (start + body + end + b), OUTSIDE, start, end)
         == a + (Spaces(|start| + |body| + |end|) + Strip(b, OUTSIDE, start, end))
  {
    StripKeeps(a, start + body + end + b, OUTSIDE, start, end);
    CommentHead(body, b, start, end);
  }

  /** A comment that is not closed only loses its start, and ends the scan. */
  lemma UnclosedKept(a: seq<byte>, b: seq<byte>, start: seq<byte>, end: seq<byte>)
    requires |start| > 0 && start[0] == SLASH && |end| > 0
    requires Quiet(a, OUTSIDE) && Scan(a, OUTSIDE) == OUTSIDE && Find(start + b, |start|, end) == None
    ensures Strip(a + (start + b), OUTSIDE, start, end) == a + (Spaces(|start|) + b)
  {
    StripKeeps(a, start + b, OUTSIDE, start, end);
    assert At(start + b, 0, start);
    assert (start + b)[|start|..] == b;
  }

  // ------------------------------------------------ printed text has no comment

  /** Text that starts in state q and ends in state r without a slash outside strings. */
  predicate Silent(t: seq<byte>, q: Scanner, r: Scanner) {
    Quiet(t, q) && Scan(t, q) == r
  }

  lemma SilentAppend(a: seq<byte>, b: seq<byte>, q: Scanner, r: Scanner, s: Scanner)
    requires Silent(a, q, r) && Silent(b, r, s)
    ensures Silent(a + b, q, s)
  {
    ScanAppend(a, b, q);
  }

  predicate Plain(t: seq<byte>) {
    forall k :: 0 <= k < |t| ==> t[k] !in {QUOTE, BACKSLASH, SLASH}
  }

  lemma {:induction false} PlainIsSilent(t: seq<byte>)
    requires Plain(t)
    ensures Silent(t, OUTSIDE, OUTSIDE)
    decreases |t|
  {
    if t != [] { PlainIsSilent(t[1..]); }
  }

  const INSIDE := Scanner(true, false)

  lemma OneByte(c: byte, q: Scanner)
    requires c == SLASH ==> q.inString
    ensures Silent([c], q, Next(q, c))
  {
    assert [c][1..] == [];
  }

  /** A backslash and the byte it escapes. */
  lemma EscapePair(c: byte)
    ensures Silent([BACKSLASH, c], INSIDE, INSIDE)
  {
    OneByte(BACKSLASH, INSIDE);
    OneByte(c, Scanner(true, true));
    SilentAppend([BACKSLASH], [c], INSIDE, Scanner(true, true), INSIDE);
    assert [BACKSLASH] + [c] == [BACKSLASH, c];
  }

  lemma {:induction false} PlainInside(t: seq<byte>)
    requires Plain(t)
    ensures Silent(t, INSIDE, INSIDE)
    decreases |t|
  {
    if t != [] { PlainInside(t[1..]); }
  }

  lemma EscapeByteSilent(c: byte, st: Style)
    ensures Silent(EscapeByte(c, st), INSIDE, INSIDE)
  {
    var e := EscapeByte(c, st);
    if |e| == 1 {
      OneByte(c, INSIDE);
    } else {
      EscapePair(e[1]);
      PlainInside(e[2..]);
      SilentAppend([BACKSLASH, e[1]], e[2..], INSIDE, INSIDE, INSIDE);
      assert e == [BACKSLASH, e[1]] + e[2..];
    }
  }

  lemma {:induction false} EscapeSilent(t: seq<byte>, k: nat, st: Style)
    requires k <= |t|
    ensures Silent(Escape(t, k, st), INSIDE, INSIDE)
    decreases |t| - k
  {
    if k < |t| {
      EscapeByteSilent(t[k], st);
      EscapeSilent(t, k + 1, st);
      SilentAppend(EscapeByte(t[k], st), Escape(t, k + 1, st), INSIDE, INSIDE, INSIDE);
    }
  }

  lemma QuotedSilent(t: seq<byte>, st: Style)
    ensures Silent(Quoted(t, st), OUTSIDE, OUTSIDE)
  {
    EscapeSilent(t, 0, st);
    assert [QUOTE][1..] == [];
    assert Silent([QUOTE], OUTSIDE, INSIDE) && Silent([QUOTE], INSIDE, OUTSIDE);
    SilentAppend([QUOTE], Escape(t, 0, st), OUTSIDE, INSIDE, INSIDE);
    SilentAppend([QUOTE] + Escape(t, 0, st), [QUOTE], OUTSIDE, INSIDE, OUTSIDE);
  }

  lemma {:induction false} IndentPlain(level: nat)
    ensures Plain(Indent(level))
  {
    if level > 0 { IndentPlain(level - 1); }
  }

  lemma EntryHeadSilent(v: Value, k: nat, st: Style)
    requires k < Count(v)
    ensures Silent(EntryHead(v, k, st), OUTSIDE, OUTSIDE)
  {
    if v.Object? {
      var name := v.members[k].name;
      var tail := [COLON] + (if st.pretty then [SPACE] else []);
      QuotedSilent(name, st);
      PlainIsSilent(tail);
      SilentAppend(Quoted(name, st), tail, OUTSIDE, OUTSIDE, OUTSIDE);
      assert KeyText(name, st) == Quoted(name, st) + tail;
    }
  }

  lemma SilentFour(a: seq<byte>, b: seq<byte>, c: seq<byte>, d: seq<byte>)
    requires Silent(a, OUTSIDE, OUTSIDE) && Silent(b, OUTSIDE, OUTSIDE)
    requires Silent(c, OUTSIDE, OUTSIDE) && Silent(d, OUTSIDE, OUTSIDE)
    ensures Silent(a + b + c + d, OUTSIDE, OUTSIDE)
  {
    SilentAppend(a, b, OUTSIDE, OUTSIDE, OUTSIDE);
    SilentAppend(a + b, c, OUTSIDE, OUTSIDE, OUTSIDE);
    SilentAppend(a + b + c, d, OUTSIDE, OUTSIDE, OUTSIDE);
  }

  lemma SilentFive(a: seq<byte>, b: seq<byte>, c: seq<byte>, d: seq<byte>, e: seq<byte>)
    requires Silent(a, OUTSIDE, OUTSIDE) && Silent(b, OUTSIDE, OUTSIDE) && Silent(c, OUTSIDE, OUTSIDE)
    requires Silent(d, OUTSIDE, OUTSIDE) && Silent(e, OUTSIDE, OUTSIDE)
    ensures Silent(a + b + c + d + e, OUTSIDE, OUTSIDE)
  {
    SilentFour(a, b, c, d);
    SilentAppend(a + b + c + d, e, OUTSIDE, OUTSIDE, OUTSIDE);
  }

  lemma EntrySilent(v: Value, k: nat, level: nat, st: Style)
    requires k < Count(v) && Silent(ChildText(v, k, level, st), OUTSIDE, OUTSIDE)
    ensures Silent(EntryText(v, k, level, st), OUTSIDE, OUTSIDE)
  {
    IndentPlain(level + 1);
    PlainIsSilent(IndentIf(st.pretty, level + 1));
    EntryHeadSilent(v, k, st);
    PlainIsSilent(Separator(k, Count(v), st));
    SilentFour(IndentIf(st.pretty, level + 1), EntryHead(v, k, st), ChildText(v, k, level, st),
               Separator(k, Count(v), st));
  }

  lemma {:induction false} EntriesSilent(v: Value, k: nat, level: nat, st: Style)
    requires k <= Count(v) && Integral(v)
    ensures Silent(EntriesText(v, k, level, st), OUTSIDE, OUTSIDE)
    decreases v, 0, Count(v) - k
  {
    if k < Count(v) {
      TextSilent(Child(v, k), level + 1, st);
      EntrySilent(v, k, level, st);
      EntriesSilent(v, k + 1, level, st);
      SilentAppend(EntryText(v, k, level, st), EntriesText(v, k + 1, level, st), OUTSIDE, OUTSIDE, OUTSIDE);
    }
  }

  lemma NumberTextPlain(neg: bool, mag: nat)
    ensures Plain(NumberText(neg, mag))
  {
    DecimalDigits(mag);
    forall k | 0 <= k < |Decimal(mag)| ensures Decimal(mag)[k] !in {QUOTE, BACKSLASH, SLASH} {
      assert IsDigit(Decimal(mag)[k]);
    }
  }

  /** Every slash of a printed tree stands inside a string, escaped or not. */
  lemma {:induction false} TextSilent(v: Value, level: nat, st: Style)
    requires Integral(v)
    ensures Silent(Text(v, level, st), OUTSIDE, OUTSIDE)
    decreases v, 1, 0
  {
    if IsContainer(v) {
      var multi := Count(v) > 0 && st.pretty;
      IndentPlain(level);
      PlainIsSilent([Open(v)]);
      PlainIsSilent([Close(v)]);
      PlainIsSilent(NewlineIf(multi));
      PlainIsSilent(IndentIf(multi, level));
      EntriesSilent(v, 0, level, st);
      SilentFive([Open(v)], NewlineIf(multi), EntriesText(v, 0, level, st), IndentIf(multi, level), [Close(v)]);
    } else if v.String? {
      QuotedSilent(v.chars, st);
    } else {
      if v.Number? { NumberTextPlain(v.neg, v.mag); }
      PlainIsSilent(Text(v, level, st));
    }
  }

  // ------------------------------------------------- parsing with comments

  /** json_parse_string_with_comments: both passes of remove_comments, then
      parse_value, here without the byte order mark that json_parse_string skips. */
  function WithoutComments(t: seq<byte>): seq<byte> {
    Strip(Strip(t, OUTSIDE, BLOCK_START, BLOCK_END), OUTSIDE, LINE_START, LINE_END)
  }

  lemma WithoutCommentsNoNul(t: seq<byte>)
    requires NoNul(t)
    ensures NoNul(WithoutComments(t))
  {
    StripNoNul(t, OUTSIDE, BLOCK_START, BLOCK_END);
    StripNoNul(Strip(t, OUTSIDE, BLOCK_START, BLOCK_END), OUTSIDE, LINE_START, LINE_END);
  }

  lemma {:induction false} StripNoNul(t: seq<byte>, q: Scanner, start: seq<byte>, end: seq<byte>)
    requires |start| > 0 && |end| > 0 && NoNul(t)
    ensures NoNul(Strip(t, q, start, end))
    decreases |t|
  {
    if t != [] && !StartsComment(t, q, start) {
      StripNoNul(t[1..], Next(q, t[0]), start, end);
    } else if t != [] && CommentLength(t, start, end).Some? {
      StripNoNul(t[CommentLength(t, start, end).value..], Scanner(q.inString, false), start, end);
    }
  }

  function ParseWithComments(s: CString): Parsed<Value> {
    WithoutCommentsNoNul(s[..|s| - 1]);
    ParseValue(WithoutComments(s[..|s| - 1]) + [0], 0, 0)
  }

  /** remove_comments is the identity on printed trees, for both comment styles, whatever
      their strings contain and whether or not slashes are escaped. */
  lemma PrintedHasNoComment(v: Value, st: Style)
    requires Integral(v)
    ensures Strip(Text(v, 0, st), OUTSIDE, BLOCK_START, BLOCK_END) == Text(v, 0, st)
    ensures Strip(Text(v, 0, st), OUTSIDE, LINE_START, LINE_END) == Text(v, 0, st)
  {
    var t := Text(v, 0, st);
    TextSilent(v, 0, st);
    StripKeeps(t, [], OUTSIDE, BLOCK_START, BLOCK_END);
    StripKeeps(t, [], OUTSIDE, LINE_START, LINE_END);
    assert t + [] == t;
  }

  /** json_parse_string_with_comments inverts serialization as json_parse_string does. */
  lemma PrintThenParseWithComments(v: Value, st: Style)
    requires WellFormed(v) && Integral(v)
    ensures ParseWithComments(Printed(v, st, [0])) == if Fits(v, 0) then Ok(v, |Text(v, 0, st)|) else Fail
  {
    var s := Printed(v, st, [0]);
    var t := Text(v, 0, st);
    assert s[..|s| - 1] == t;
    PrintedHasNoComment(v, st);
    PrintThenParse(v, st, [0]);
    TextStart(v, 0, st);
    assert s[0] == t[0] != 0xEF;
    if At(s, 0, [0xEF, 0xBB, 0xBF]) { AtByte(s, 0, [0xEF, 0xBB, 0xBF], 0); }
  }

  // ------------------------------------------------------ in place, on a buffer

  /** The part of a between lo and hi overwritten with spaces. */
  method Blank(a: array<byte>, lo: nat, hi: nat)
    requires lo <= hi < a.Length
    modifies a
    ensures forall k :: lo <= k < hi ==> a[k] == SPACE
    ensures forall k :: 0 <= k < a.Length && !(lo <= k < hi) ==> a[k] == old(a[k])
  {
    for i := lo to hi
      invariant forall k :: lo <= k < i ==> a[k] == SPACE
      invariant forall k :: 0 <= k < a.Length && !(lo <= k < i) ==> a[k] == old(a[k])
    {
      a[i] := SPACE;
    }
  }

  /** What is already treated, and what Strip makes of the rest. */
  function Remaining(t: seq<byte>, i: nat, q: Scanner, start: seq<byte>, end: seq<byte>): seq<byte>
    requires i <= |t| && |start| > 0 && |end| > 0
  {
    t[..i] + Strip(t[i..], q, start, end)
  }

  lemma RemainingStep(t: seq<byte>, i: nat, q: Scanner, start: seq<byte>, end: seq<byte>)
    requires i < |t| && |start| > 0 && |end| > 0 && !StartsComment(t[i..], q, start)
    ensures Remaining(t, i, q, start, end) == Remaining(t, i + 1, Next(q, t[i]), start, end)
  {
    assert t[i..][1..] == t[i + 1..];
    assert t[..i] + [t[i]] == t[..i + 1];
    assert t[..i] + ([t[i]] + Strip(t[i + 1..], Next(q, t[i]), start, end))
        == t[..i + 1] + Strip(t[i + 1..], Next(q, t[i]), start, end);
  }

  lemma StripsUnterminated(w: seq<byte>, q: Scanner, start: seq<byte>, end: seq<byte>)
    requires |start| > 0 && |end| > 0 && StartsComment(w, q, start) && CommentLength(w, start, end).None?
    ensures Strip(w, q, start, end) == Spaces(|start|) + w[|start|..]
  {
  }

  lemma StripsComment(w: seq<byte>, q: Scanner, start: seq<byte>, end: seq<byte>, n: nat)
    requires |start| > 0 && |end| > 0 && StartsComment(w, q, start) && CommentLength(w, start, end) == Some(n)
    ensures Strip(w, q, start, end) == Spaces(n) + Strip(w[n..], Scanner(q.inString, false), start, end)
  {
  }

  lemma DropTwice(t: seq<byte>, i: nat, n: nat)
    requires i + n <= |t|
    ensures t[i..][n..] == t[i + n..]
  {
  }

  /** An unterminated comment at i: only its start token is blanked. */
  lemma RemainingEnds(t: seq<byte>, i: nat, q: Scanner, start: seq<byte>, end: seq<byte>)
    requires i < |t| && |start| > 0 && |end| > 0 && StartsComment(t[i..], q, start)
    requires CommentLength(t[i..], start, end).None?
    ensures Remaining(t, i, q, start, end) == t[..i] + Spaces(|start|) + t[i + |start|..]
  {
    StripsUnterminated(t[i..], q, start, end);
    DropTwice(t, i, |start|);
    Associate(t[..i], Spaces(|start|), t[i + |start|..]);
  }

  /** A comment of length n at i: u is t with it blanked. */
  lemma RemainingComment(t: seq<byte>, u: seq<byte>, i: nat, n: nat, q: Scanner, start: seq<byte>, end: seq<byte>)
    requires i < |t| && |start| > 0 && |end| > 0 && StartsComment(t[i..], q, start)
    requires CommentLength(t[i..], start, end) == Some(n)
    requires u == t[..i] + Spaces(n) + t[i + n..]
    ensures Remaining(t, i, q, start, end) == Remaining(u, i + n, Scanner(q.inString, false), start, end)
  {
    StripsComment(t[i..], q, start, end, n);
    DropTwice(t, i, n);
    SplitBack(t[..i] + Spaces(n), t[i + n..], i + n);
    Associate(t[..i], Spaces(n), Strip(t[i + n..], Scanner(q.inString, false), start, end));
  }

  lemma SplitBack(x: seq<byte>, y: seq<byte>, j: nat)
    requires |x| == j
    ensures (x + y)[..j] == x && (x + y)[j..] == y
  {
  }

  lemma Associate(x: seq<byte>, y: seq<byte>, z: seq<byte>)
    ensures x + (y + z) == x + y + z
  {
  }

  /** remove_comments, in place on a NUL-terminated buffer. */
  method RemoveComments(a: array<byte>, start: seq<byte>, end: seq<byte>)
    requires a.Length > 0 && a[a.Length - 1] == 0 && NoNul(a[..a.Length - 1])
    modifies a
    ensures a[a.Length - 1] == 0
    ensures if start == [] || end == [] then a[..] == old(a[..])
            else a[..a.Length - 1] == Strip(old(a[..a.Length - 1]), OUTSIDE, start, end)
  {
    if |start| == 0 || |end| == 0 { return; }
    var n := a.Length - 1;
    ghost var whole := Strip(a[..n], OUTSIDE, start, end);
    var inString, escaped, i := false, false, 0;
    while a[i] != 0
      invariant i <= n && a[n] == 0 && NoNul(a[i..n])
      invariant whole == Remaining(a[..n], i, Scanner(inString, escaped), start, end)
      decreases n - i
    {
      i, inString, escaped := RemoveStep(a, i, inString, escaped, start, end);
    }
    assert i == n;
    assert a[..n][n..] == [];
  }

  /** The loop body of remove_comments. */
  method RemoveStep(a: array<byte>, i: nat, inString: bool, escaped: bool, start: seq<byte>, end: seq<byte>)
    returns (i': nat, inString': bool, escaped': bool)
    requires i < a.Length - 1 && a[a.Length - 1] == 0 && NoNul(a[i..a.Length - 1])
    requires |start| > 0 && |end| > 0
    modifies a
    ensures i < i' < a.Length && a[a.Length - 1] == 0 && NoNul(a[i'..a.Length - 1])
    ensures Remaining(a[..a.Length - 1], i', Scanner(inString', escaped'), start, end)
         == Remaining(old(a[..a.Length - 1]), i, Scanner(inString, escaped), start, end)
  {
    var n := a.Length - 1;
    ghost var t, q := a[..n], Scanner(inString, escaped);
    var w := a[i..n];
    assert w == t[i..];
    i', inString', escaped' := i + 1, inString, false;
    if a[i] == BACKSLASH && !escaped {
      escaped' := true;
      RemainingStep(t, i, q, start, end);
    } else if a[i] == QUOTE && !escaped {
      inString' := !inString;
      RemainingStep(t, i, q, start, end);
    } else if !inString && At(w, 0, start) {
      var len := CommentLength(w, start, end);
      if len.None? {
        i' := RemoveStart(a, i, escaped, start, end);
      } else {
        i' := RemoveComment(a, i, len.value, escaped, start, end);
      }
    } else {
      RemainingStep(t, i, q, start, end);
    }
  }

  lemma StartRemoved(t: seq<byte>, u: seq<byte>, i: nat, q: Scanner, start: seq<byte>, end: seq<byte>)
    requires i < |t| && |start| > 0 && |end| > 0 && StartsComment(t[i..], q, start)
    requires CommentLength(t[i..], start, end).None?
    requires u == t[..i] + Spaces(|start|) + t[i + |start|..]
    ensures Remaining(u, |u|, OUTSIDE, start, end) == Remaining(t, i, q, start, end)
  {
    RemainingEnds(t, i, q, start, end);
    RemainingAll(u, OUTSIDE, start, end);
  }

  lemma RemainingAll(t: seq<byte>, q: Scanner, start: seq<byte>, end: seq<byte>)
    requires |start| > 0 && |end| > 0
    ensures Remaining(t, |t|, q, start, end) == t
  {
    assert t[|t|..] == [] && t[..|t|] == t;
  }

  lemma Blanked(t: seq<byte>, u: seq<byte>, lo: nat, hi: nat)
    requires lo <= hi <= |t| == |u|
    requires forall k :: lo <= k < hi ==> u[k] == SPACE
    requires forall k :: 0 <= k < |t| && !(lo <= k < hi) ==> u[k] == t[k]
    ensures u == t[..lo] + Spaces(hi - lo) + t[hi..]
  {
  }

  /** An unterminated comment: the start token goes and the scan is over. */
  method RemoveStart(a: array<byte>, i: nat, escaped: bool, start: seq<byte>, end: seq<byte>) returns (i': nat)
    requires i < a.Length - 1 && a[a.Length - 1] == 0 && |start| > 0 && |end| > 0
    requires StartsComment(a[i..a.Length - 1], Scanner(false, escaped), start)
    requires CommentLength(a[i..a.Length - 1], start, end).None?
    modifies a
    ensures i' == a.Length - 1 && a[i'] == 0
    ensures Remaining(a[..i'], i', OUTSIDE, start, end)
         == Remaining(old(a[..a.Length - 1]), i, Scanner(false, escaped), start, end)
  {
    i' := a.Length - 1;
    ghost var t := a[..i'];
    assert a[i..i'] == t[i..];
    Blank(a, i, i + |start|);
    Blanked(t, a[..i'], i, i + |start|);
    StartRemoved(t, a[..i'], i, Scanner(false, escaped), start, end);
  }

  /** A comment of the given length. */
  method RemoveComment(a: array<byte>, i: nat, len: nat, escaped: bool, start: seq<byte>,
                       end: seq<byte>) returns (i': nat)
    requires i < a.Length - 1 && a[a.Length - 1] == 0 && NoNul(a[i..a.Length - 1]) && |start| > 0 && |end| > 0
    requires StartsComment(a[i..a.Length - 1], Scanner(false, escaped), start)
    requires CommentLength(a[i..a.Length - 1], start, end) == Some(len)
    modifies a
    ensures i < i' < a.Length && a[a.Length - 1] == 0 && NoNul(a[i'..a.Length - 1])
    ensures Remaining(a[..a.Length - 1], i', OUTSIDE, start, end)
         == Remaining(old(a[..a.Length - 1]), i, Scanner(false, escaped), start, end)
  {
    var n := a.Length - 1;
    ghost var t := a[..n];
    assert a[i..n] == t[i..];
    i' := i + len;
    Blank(a, i, i + |start|);
    Blank(a, i + |start|, i');
    Blanked(t, a[..n], i, i');
    RemainingComment(t, a[..n], i, len, Scanner(false, escaped), start, end);
  }

  /** Both passes. */
  method RemoveAllComments(a: array<byte>)
    requires a.Length > 0 && a[a.Length - 1] == 0 && NoNul(a[..a.Length - 1])
    modifies a
    ensures a[a.Length - 1] == 0
    ensures a[..a.Length - 1] == WithoutComments(old(a[..a.Length - 1]))
  {
    StripNoNul(a[..a.Length - 1], OUTSIDE, BLOCK_START, BLOCK_END);
    RemoveComments(a, BLOCK_START, BLOCK_END);
    RemoveComments(a, LINE_START, LINE_END);
  }

  /** json_parse_string_with_comments, on its own copy of the string. */
  method JsonParseStringWithComments(s: CString) returns (r: Option<Value>)
    ensures r.Some? <==> ParseWithComments(s).Ok?
    ensures r.Some? ==> r.value == ParseWithComments(s).value
  {
    var n := |s| - 1;
    var copy := new byte[|s|](i requires 0 <= i < |s| => s[i]);
    assert copy[..n] == s[..n];
    RemoveAllComments(copy);
    WithoutCommentsNoNul(s[..n]);
    EndsInNul(copy[..]);
    var j;
    r, j := ParseJsonValue(copy[..], 0, 0);
  }

  lemma EndsInNul(copy: seq<byte>)
    requires copy != [] && copy[|copy| - 1] == 0
    ensures copy == copy[..|copy| - 1] + [0]
  {
  }
}
