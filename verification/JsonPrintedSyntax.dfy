/** What the printer writes is text of RFC 8259. SyntaxOf gives the concrete syntax tree
    of a printed value: the line breaks and indents that the printer puts behind an entry
    become the white space in front of the next one or of the closing bracket. One
    induction shows that this tree is in every dialect and means the value, another one
    that its text is the text printed. */
module JsonPrintedSyntax {
  import opened Bytes
  import opened JsonTree
  import opened JsonGrammar
  import opened JsonSyntax
  import opened JsonSyntaxLexical
  import opened JsonStringProofs
  import opened JsonNumberProofs
  import T = JsonText

  // ---------------------------------------------------------------- strings

  function PieceOf(c: byte, st: T.Style): Piece {
    if c == QUOTE || c == BACKSLASH then Escaped(c)
    else if c == 8 then Escaped('b' as int)
    else if c == 12 then Escaped('f' as int)
    else if c == 10 then Escaped('n' as int)
    else if c == 13 then Escaped('r' as int)
    else if c == 9 then Escaped('t' as int)
    else if c < 32 then Unit(Hex(ZERO, ZERO, T.HexDigit(c / 16), T.HexDigit(c % 16)))
    else if c == SLASH && st.escapeSlashes then Escaped(c)
    else Plain(c)
  }

  lemma PieceWritten(c: byte, st: T.Style, g: Dialect)
    ensures var p := PieceOf(c, st);
            && PieceIn(p, g) && (p.Unit? ==> !IsLead(UnitValue(p.hex)))
            && PieceText(p) == T.EscapeByte(c, st) && PieceMeaning(p) == [c]
  {
    if c < 32 {
      HexDigitValue(c / 16);
      HexDigitValue(c % 16);
    }
  }

  function PiecesOf(t: seq<byte>, k: nat, st: T.Style): seq<Piece>
    requires k <= |t|
    decreases |t| - k
  {
    if k == |t| then [] else [PieceOf(t[k], st)] + PiecesOf(t, k + 1, st)
  }

  lemma {:induction false} PiecesWritten(t: seq<byte>, k: nat, st: T.Style, g: Dialect)
    requires k <= |t|
    ensures var ps := PiecesOf(t, k, st);
            CharsIn(ps, g) && CharsText(ps) == T.Escape(t, k, st) && CharsMeaning(ps) == t[k..]
    decreases |t| - k
  {
    if k < |t| {
      PieceWritten(t[k], st, g);
      PiecesWritten(t, k + 1, st, g);
      PiecePrepended(PieceOf(t[k], st), PiecesOf(t, k + 1, st), g);
    }
  }

  /** Quotes, backslashes and control characters are escaped, and slashes if the option
      says so; with two characters wherever RFC 8259 has such an escape. */
  lemma EscapeChosen(c: byte, st: T.Style)
    ensures T.EscapeByte(c, st) == [c]
       <==> !(c == QUOTE || c == BACKSLASH || c < 0x20 || (c == SLASH && st.escapeSlashes))
    ensures |T.EscapeByte(c, st)| == 6 <==> c < 0x20 && forall e :: Escape(e) != Some(c)
    ensures |T.EscapeByte(c, st)| in {1, 2, 6}
  {
    if c < 0x20 && |T.EscapeByte(c, st)| == 2 { assert Escape(T.EscapeByte(c, st)[1]) == Some(c); }
  }

  lemma QuotedWritten(t: seq<byte>, st: T.Style, g: Dialect)
    ensures var ps := PiecesOf(t, 0, st);
            CharsIn(ps, g) && QuotedText(ps) == T.Quoted(t, st) && CharsMeaning(ps) == t
  {
    PiecesWritten(t, 0, st, g);
  }

  // ---------------------------------------------------------------- numbers

  lemma NumeralWritten(neg: bool, mag: nat, g: Dialect)
    requires mag <= MAX_EXACT
    ensures var n := Numeral(neg, Decimal(mag), None, None);
            NumeralIn(n, g) && NumeralText(n) == T.NumberText(neg, mag) && NumeralMeaning(n) == Number(neg, mag)
  {
    DecimalDigits(mag);
    IntegerInRange(mag);
  }

  // ----------------------------------------------------------------- values

  /** The white space in front of an entry. */
  function Lead(level: nat, st: T.Style): seq<byte> {
    T.NewlineIf(st.pretty) + T.IndentIf(st.pretty, level + 1)
  }

  /** The white space behind entry k of count. */
  function Trail(k: nat, count: nat, level: nat, st: T.Style): seq<byte> {
    if k + 1 < count then [] else T.NewlineIf(st.pretty) + T.IndentIf(st.pretty, level)
  }

  function SyntaxOf(v: Value, level: nat, st: T.Style): Syntax
    requires Integral(v)
    decreases v, 0
  {
    match v
    case Null => NullWord
    case Bool(b) => BoolWord(b)
    case Number(neg, mag) => NumberWord(Numeral(neg, Decimal(mag), None, None))
    case String(chars) => StringWord(PiecesOf(chars, 0, st))
    case Array(items) => if items == [] then EmptyArray([]) else ArrayOf(ItemsOf(v, 0, level, st))
    case Object(ms) => if ms == [] then EmptyObject([]) else ObjectOf(MembersOf(v, 0, level, st))
  }

  function ItemsOf(v: Value, k: nat, level: nat, st: T.Style): Items
    requires v.Array? && Integral(v) && k < Count(v)
    decreases v, 0, Count(v) - k
  {
    var x := Entry(Lead(level, st), SyntaxOf(Child(v, k), level + 1, st), Trail(k, Count(v), level, st));
    if k + 1 < Count(v) then MoreItems(x, ItemsOf(v, k + 1, level, st)) else LastItem(x)
  }

  function MembersOf(v: Value, k: nat, level: nat, st: T.Style): Members
    requires v.Object? && Integral(v) && k < Count(v)
    decreases v, 0, Count(v) - k
  {
    var key := Key(Lead(level, st), PiecesOf(v.members[k].name, 0, st), []);
    var x := Entry(if st.pretty then [SPACE] else [], SyntaxOf(Child(v, k), level + 1, st),
                   Trail(k, Count(v), level, st));
    if k + 1 < Count(v) then MoreMembers(key, x, MembersOf(v, k + 1, level, st)) else LastMember(key, x)
  }

  // --------------------------------------------------------------- white space

  lemma {:induction false} IndentIsGap(level: nat, g: Dialect)
    ensures IsGap(T.Indent(level), g)
  {
    if level > 0 { IndentIsGap(level - 1, g); }
  }

  lemma LayoutIsGap(k: nat, count: nat, level: nat, st: T.Style, g: Dialect)
    ensures IsGap(Lead(level, st), g) && IsGap(Trail(k, count, level, st), g)
  {
    IndentIsGap(level + 1, g);
    IndentIsGap(level, g);
  }

  // ------------------------------------------------ it is in every dialect, and means v

  lemma ItemsStep(vs: seq<Value>, k: nat)
    requires k < |vs|
    ensures vs[k..] == [vs[k]] + vs[k + 1..]
  {
  }

  lemma KeyDenotes(name: seq<byte>, level: nat, st: T.Style, g: Dialect)
    ensures KeyIn(Key(Lead(level, st), PiecesOf(name, 0, st), []), g) && CharsMeaning(PiecesOf(name, 0, st)) == name
  {
    LayoutIsGap(0, 0, level, st, g);
    QuotedWritten(name, st, g);
  }

  lemma MembersJoined(ms: seq<Member>, k: nat, m: Member, rest: seq<Member>)
    requires k < |ms| && m == ms[k] && rest == ms[k + 1..]
    ensures [m] + rest == ms[k..]
  {
  }

  lemma {:induction false} ItemsDenote(v: Value, k: nat, level: nat, st: T.Style, g: Dialect)
    requires v.Array? && WellFormed(v) && Integral(v) && k < Count(v)
    ensures ItemsIn(ItemsOf(v, k, level, st), g) && ItemsMeaning(ItemsOf(v, k, level, st)) == v.items[k..]
    decreases v, 0, Count(v) - k
  {
    LayoutIsGap(k, Count(v), level, st, g);
    SyntaxDenotes(Child(v, k), level + 1, st, g);
    ItemsStep(v.items, k);
    if k + 1 < Count(v) { ItemsDenote(v, k + 1, level, st, g); }
  }

  lemma {:induction false} MembersDenote(v: Value, k: nat, level: nat, st: T.Style, g: Dialect)
    requires v.Object? && WellFormed(v) && Integral(v) && k < Count(v)
    ensures MembersIn(MembersOf(v, k, level, st), g) && MembersMeaning(MembersOf(v, k, level, st)) == v.members[k..]
    decreases v, 0, Count(v) - k, 1
  {
    var key, x := MemberDenotes(v, k, level, st, g);
    if k + 1 < Count(v) {
      MembersDenote(v, k + 1, level, st, g);
      MembersJoined(v.members, k, MemberMeaning(key, x), v.members[k + 1..]);
    } else {
      MembersJoined(v.members, k, MemberMeaning(key, x), []);
    }
  }

  lemma {:induction false} MemberDenotes(v: Value, k: nat, level: nat, st: T.Style, g: Dialect)
    returns (key: Key, x: Entry)
    requires v.Object? && WellFormed(v) && Integral(v) && k < Count(v)
    ensures KeyIn(key, g) && EntryIn(x, g) && MemberMeaning(key, x) == v.members[k]
    ensures MembersOf(v, k, level, st) ==
              if k + 1 < Count(v) then MoreMembers(key, x, MembersOf(v, k + 1, level, st)) else LastMember(key, x)
    decreases v, 0, Count(v) - k, 0
  {
    LayoutIsGap(k, Count(v), level, st, g);
    KeyDenotes(v.members[k].name, level, st, g);
    SyntaxDenotes(Child(v, k), level + 1, st, g);
    key, x := MembersOf(v, k, level, st).key, MembersOf(v, k, level, st).entry;
  }

  lemma {:induction false} SyntaxDenotes(v: Value, level: nat, st: T.Style, g: Dialect)
    requires WellFormed(v) && Integral(v)
    ensures SyntaxIn(SyntaxOf(v, level, st), g) && Meaning(SyntaxOf(v, level, st)) == v
    decreases v, 1
  {
    match v
    case Number(neg, mag) => NumeralWritten(neg, mag, g);
    case String(chars) => QuotedWritten(chars, st, g);
    case Array(items) => if items != [] { ItemsDenote(v, 0, level, st, g); }
    case Object(ms) => if ms != [] { MembersDenote(v, 0, level, st, g); }
    case _ =>
  }

  // ----------------------------------------------------------------- it is the text

  /** Entries k.. with the lines started before them instead of ended behind them. */
  function Lines(v: Value, k: nat, level: nat, st: T.Style): seq<byte>
    requires k < Count(v)
  {
    T.NewlineIf(st.pretty) + T.EntriesText(v, k, level, st) + T.IndentIf(st.pretty, level)
  }

  lemma EntryRegroups(nl: seq<byte>, ind: seq<byte>, head: seq<byte>, child: seq<byte>, sep: seq<byte>,
                      rest: seq<byte>, close: seq<byte>)
    ensures nl + (ind + head + child + sep + rest) + close == (nl + ind) + head + child + (sep + rest + close)
  {
  }

  lemma CommaRegroups(nl: seq<byte>, rest: seq<byte>, close: seq<byte>)
    ensures ([COMMA] + nl) + rest + close == [COMMA] + (nl + rest + close)
  {
  }

  lemma LastRegroups(nl: seq<byte>, close: seq<byte>)
    ensures ([] + nl) + [] + close == nl + close
  {
  }

  lemma LinesStep(v: Value, k: nat, level: nat, st: T.Style)
    requires k < Count(v)
    ensures Lines(v, k, level, st)
         == Lead(level, st) + T.EntryHead(v, k, st) + T.ChildText(v, k, level, st)
            + (Trail(k, Count(v), level, st) + if k + 1 < Count(v) then [COMMA] + Lines(v, k + 1, level, st) else [])
  {
    var nl, close := T.NewlineIf(st.pretty), T.IndentIf(st.pretty, level);
    var rest := T.EntriesText(v, k + 1, level, st);
    EntryRegroups(nl, T.IndentIf(st.pretty, level + 1), T.EntryHead(v, k, st), T.ChildText(v, k, level, st),
                  T.Separator(k, Count(v), st), rest, close);
    assert T.EntriesText(v, k, level, st) == T.EntryText(v, k, level, st) + rest;
    if k + 1 < Count(v) { CommaRegroups(nl, rest, close); } else { LastRegroups(nl, close); }
    EmptyAround(nl + close, if k + 1 < Count(v) then [COMMA] + Lines(v, k + 1, level, st) else []);
  }

  lemma EmptyAround(a: seq<byte>, b: seq<byte>)
    ensures a + [] == a && [] + b == b
  {
  }

  lemma ItemRegroups(lead: seq<byte>, child: seq<byte>, trail: seq<byte>, comma: seq<byte>)
    ensures (lead + child + trail) + comma == lead + [] + child + (trail + comma)
  {
  }

  lemma MemberRegroups(lead: seq<byte>, name: seq<byte>, space: seq<byte>, child: seq<byte>, trail: seq<byte>,
                       comma: seq<byte>)
    ensures (lead + name + []) + [COLON] + (space + child + trail) + comma
         == lead + (name + [COLON] + space) + child + (trail + comma)
  {
  }

  lemma {:induction false} ItemsWritten(v: Value, k: nat, level: nat, st: T.Style)
    requires v.Array? && Integral(v) && k < Count(v)
    ensures ItemsText(ItemsOf(v, k, level, st)) == Lines(v, k, level, st)
    decreases v, 0, Count(v) - k
  {
    var more := k + 1 < Count(v);
    LinesStep(v, k, level, st);
    SyntaxWritten(Child(v, k), level + 1, st);
    if more { ItemsWritten(v, k + 1, level, st); }
    ItemRegroups(Lead(level, st), T.ChildText(v, k, level, st), Trail(k, Count(v), level, st),
                 if more then [COMMA] + Lines(v, k + 1, level, st) else []);
  }

  lemma {:induction false} MembersWritten(v: Value, k: nat, level: nat, st: T.Style)
    requires v.Object? && Integral(v) && k < Count(v)
    ensures MembersText(MembersOf(v, k, level, st)) == Lines(v, k, level, st)
    decreases v, 0, Count(v) - k
  {
    var more := k + 1 < Count(v);
    LinesStep(v, k, level, st);
    QuotedWritten(v.members[k].name, st, Wide);
    SyntaxWritten(Child(v, k), level + 1, st);
    if more { MembersWritten(v, k + 1, level, st); }
    MemberRegroups(Lead(level, st), T.Quoted(v.members[k].name, st), if st.pretty then [SPACE] else [],
                   T.ChildText(v, k, level, st), Trail(k, Count(v), level, st),
                   if more then [COMMA] + Lines(v, k + 1, level, st) else []);
  }

  lemma BracketRegroups(open: byte, nl: seq<byte>, t: seq<byte>, ind: seq<byte>, close: byte)
    ensures [open] + nl + t + ind + [close] == [open] + (nl + t + ind) + [close]
  {
  }

  lemma EmptyWritten(v: Value, level: nat, st: T.Style)
    requires IsContainer(v) && Integral(v) && Count(v) == 0
    ensures SyntaxText(SyntaxOf(v, level, st)) == T.Text(v, level, st)
  {
    BracketRegroups(T.Open(v), [], [], [], T.Close(v));
    EmptyAround([], []);
  }

  lemma ContainerText(v: Value, level: nat, st: T.Style)
    requires Count(v) > 0
    ensures T.Text(v, level, st) == [T.Open(v)] + Lines(v, 0, level, st) + [T.Close(v)]
  {
    BracketRegroups(T.Open(v), T.NewlineIf(st.pretty), T.EntriesText(v, 0, level, st),
                    T.IndentIf(st.pretty, level), T.Close(v));
  }

  lemma {:induction false} ArrayWritten(v: Value, level: nat, st: T.Style)
    requires v.Array? && Integral(v) && Count(v) > 0
    ensures SyntaxText(SyntaxOf(v, level, st)) == T.Text(v, level, st)
    decreases v, 0, Count(v) + 1
  {
    ItemsWritten(v, 0, level, st);
    ContainerText(v, level, st);
    assert SyntaxOf(v, level, st) == ArrayOf(ItemsOf(v, 0, level, st));
  }

  lemma {:induction false} ObjectWritten(v: Value, level: nat, st: T.Style)
    requires v.Object? && Integral(v) && Count(v) > 0
    ensures SyntaxText(SyntaxOf(v, level, st)) == T.Text(v, level, st)
    decreases v, 0, Count(v) + 1
  {
    MembersWritten(v, 0, level, st);
    ContainerText(v, level, st);
    assert SyntaxOf(v, level, st) == ObjectOf(MembersOf(v, 0, level, st));
  }

  lemma LeafWritten(v: Value, level: nat, st: T.Style)
    requires !IsContainer(v) && Integral(v)
    ensures SyntaxText(SyntaxOf(v, level, st)) == T.Text(v, level, st)
  {
    if v.String? { QuotedWritten(v.chars, st, Wide); }
    if v.Number? {
      var t := (if v.neg then [MINUS] else []) + Decimal(v.mag);
      EmptyAround(t, []);
      assert NumeralText(Numeral(v.neg, Decimal(v.mag), None, None)) == t + [] + [];
    }
  }

  /** The printed tree is the text of its syntax. */
  lemma {:induction false} SyntaxWritten(v: Value, level: nat, st: T.Style)
    requires Integral(v)
    ensures SyntaxText(SyntaxOf(v, level, st)) == T.Text(v, level, st)
    decreases v, 1
  {
    if !IsContainer(v) {
      LeafWritten(v, level, st);
    } else if Count(v) == 0 {
      EmptyWritten(v, level, st);
    } else if v.Array? {
      ArrayWritten(v, level, st);
    } else {
      ObjectWritten(v, level, st);
    }
  }

  /** Whatever tree is printed in whatever style, the text is one of RFC 8259, and
      denotes the tree. */
  lemma PrintedIsRfc8259(v: Value, st: T.Style) returns (d: Syntax)
    requires WellFormed(v) && Integral(v)
    ensures SyntaxIn(d, Rfc8259) && SyntaxText(d) == T.Text(v, 0, st) && Meaning(d) == v
  {
    d := SyntaxOf(v, 0, st);
    SyntaxDenotes(v, 0, st, Rfc8259);
    SyntaxWritten(v, 0, st);
  }
}
