/** Parsing undoes printing, at any position: printed text is text of the syntax, and the
    parser reads such text as what it means. */
module JsonRoundTrip {
  import opened Bytes
  import opened JsonTree
  import opened JsonText
  import opened JsonGrammar
  import opened JsonNumberProofs
  import C = JsonConformance
  import P = JsonPrintedSyntax
  import S = JsonSyntax
  import X = JsonSyntaxLexical

  /** No text starts with white space. */
  lemma TextStart(v: Value, level: nat, st: Style)
    requires Integral(v)
    ensures |Text(v, level, st)| > 0
    ensures !IsSpace(Text(v, level, st)[0]) && Text(v, level, st)[0] !in {0, RBRACKET} && Text(v, level, st)[0] < 0x80
    ensures v.Number? ==> Text(v, level, st) == NumberText(v.neg, v.mag)
  {
    if v.Number? {
      DecimalDigits(v.mag);
      assert IsDigit(Decimal(v.mag)[0]);
    }
  }

  /** The first unescaped quote behind escaped text is the one the serializer wrote. */
  lemma EscapedCloses(s: CString, i: nat, t: seq<byte>, k: nat, st: Style)
    requires k <= |t| && At(s, i, Escape(t, k, st))
    requires i + |Escape(t, k, st)| < |s| && s[i + |Escape(t, k, st)|] == QUOTE
    ensures CloseQuote(s, i) == Some(i + |Escape(t, k, st)|)
  {
    var ps, end := P.PiecesOf(t, k, st), i + |Escape(t, k, st)|;
    P.PiecesWritten(t, k, st, S.Wide);
    assert Behind(s, i, Escape(t, k, st)) == Some(end);
    X.CharsRead(s, i, end, ps, []);
  }

  /** get_quoted_string inverts json_serialize_string on every byte string. */
  lemma QuotedRead(s: CString, i: nat, t: seq<byte>, st: Style)
    requires At(s, i, Quoted(t, st))
    ensures i + |Quoted(t, st)| < |s|
    ensures QuotedString(s, i) == Ok(t, i + |Quoted(t, st)|)
  {
    P.QuotedWritten(t, st, S.Wide);
    P.QuotedWritten(t, st, S.Parson);
    X.QuotedTextRead(s, i, P.PiecesOf(t, 0, st));
  }

  predicate CannotExtend(s: CString, e: nat, v: Value)
    requires e < |s|
  {
    v.Number? ==> !Extends(s, e, v.mag)
  }

  lemma ExtendsContinues(s: CString, e: nat, neg: bool, mag: nat)
    requires e < |s|
    ensures Extends(s, e, mag) <==> X.Continues(s, e, S.Numeral(neg, Decimal(mag), None, None))
  {
    DecimalDigits(mag);
    assert mag == 0 <==> Decimal(mag) == [ZERO];
  }

  lemma SameTextBehind(s: seq<byte>, i: nat, t: seq<byte>, u: seq<byte>)
    requires At(s, i, t) && u == t
    ensures Behind(s, i, u) == Some(i + |t|)
  {
  }

  lemma PrintedBehind(s: CString, i: nat, v: Value, level: nat, st: Style)
    requires Integral(v) && At(s, i, Text(v, level, st))
    ensures Behind(s, i, S.SyntaxText(P.SyntaxOf(v, level, st))) == Some(i + |Text(v, level, st)|)
  {
    P.SyntaxWritten(v, level, st);
    SameTextBehind(s, i, Text(v, level, st), S.SyntaxText(P.SyntaxOf(v, level, st)));
  }

  lemma PrintedEnds(s: CString, i: nat, e: nat, v: Value, level: nat, st: Style)
    requires e == i + |Text(v, level, st)| < |s| && Integral(v)
    ensures CannotExtend(s, i + |Text(v, level, st)|, v) ==> C.EndsAt(s, e, P.SyntaxOf(v, level, st))
  {
    if v.Number? { ExtendsContinues(s, e, v.neg, v.mag); }
  }

  lemma PrintedSyntax(v: Value, level: nat, st: Style) returns (d: S.Syntax)
    requires WellFormed(v) && Integral(v)
    ensures d == P.SyntaxOf(v, level, st) && S.Meaning(d) == v
    ensures S.SyntaxIn(d, S.Wide) && S.SyntaxIn(d, S.Parson)
  {
    d := P.SyntaxOf(v, level, st);
    P.SyntaxDenotes(v, level, st, S.Wide);
    P.SyntaxDenotes(v, level, st, S.Parson);
  }

  /** A printed value is read back, in the same key order and up to its last byte,
      exactly when it is not nested too deep for where it stands. */
  lemma ValueRead(s: CString, i: nat, v: Value, level: nat, st: Style, n: nat)
    requires WellFormed(v) && Integral(v)
    requires At(s, i, Text(v, level, st)) && i + |Text(v, level, st)| < |s|
    requires CannotExtend(s, i + |Text(v, level, st)|, v)
    ensures ParseValue(s, i, n) == if Fits(v, n) then Ok(v, i + |Text(v, level, st)|) else Fail
  {
    var e := i + |Text(v, level, st)|;
    PrintedEnds(s, i, e, v, level, st);
    PrintedBehind(s, i, v, level, st);
    var d := PrintedSyntax(v, level, st);
    C.ReadAsMeant(s, i, n, d, v, e);
  }
}
