/** How a string's content leads to its closing quote. */
module JsonStringProofs {
  import opened Bytes
  import opened JsonText
  import opened JsonGrammar

  /** Bytes that end nothing and escape nothing are skipped on the way to the quote. */
  lemma {:induction false} CloseQuoteSkips(s: CString, i: nat, j: nat)
    requires i <= j < |s|
    requires forall k :: i <= k < j ==> s[k] != QUOTE && s[k] != BACKSLASH && s[k] != 0
    ensures CloseQuote(s, i) == CloseQuote(s, j)
    decreases j - i
  {
    if i < j { CloseQuoteSkips(s, i + 1, j); }
  }

  /** A character of a string's content lies wholly before the closing quote. */
  lemma StringCharInside(s: CString, i: nat, end: nat)
    requires i < end < |s| && CloseQuote(s, i) == Some(end)
    requires s[i] != 0 && StringChar(s, i).Ok?
    ensures CloseQuote(s, StringChar(s, i).end) == Some(end)
  {
    if s[i] == BACKSLASH && s[i + 1] == 'u' as int {
      EscapeSkipped(s, i);
      if StringChar(s, i).end != i + 6 { EscapeSkipped(s, i + 6); }
    }
  }

  lemma EscapeSkipped(s: CString, i: nat)
    requires i + 1 < |s| && s[i] == BACKSLASH && s[i + 1] == 'u' as int && Hex4(s, i + 2).Some?
    ensures i + 6 < |s| && CloseQuote(s, i) == CloseQuote(s, i + 6)
  {
    CloseQuoteSkips(s, i + 2, i + 6);
  }

  lemma HexDigitValue(d: nat)
    requires d < 16
    ensures HexValue(HexDigit(d)) == d
    ensures HexDigit(d) != QUOTE && HexDigit(d) != BACKSLASH && HexDigit(d) >= ZERO
  {
  }

  lemma Unquoted(s: CString, i: nat, e: seq<byte>) returns (end: nat)
    requires At(s, i, [QUOTE] + e + [QUOTE])
    ensures end == i + 1 + |e| < |s| - 1 && s[i] == QUOTE && s[end] == QUOTE && At(s, i + 1, e)
  {
    end := i + 1 + |e|;
    AtAppend(s, i, [QUOTE] + e, [QUOTE]);
    AtAppend(s, i, [QUOTE], e);
    AtByte(s, i, [QUOTE], 0);
    AtByte(s, end, [QUOTE], 0);
  }
}
