/** Reading a string keeps it valid UTF-8, and escapes denote the code points that
    section 7 of RFC 8259 gives them. */
module JsonStringUtf8 {
  import opened Bytes
  import opened JsonGrammar
  import opened JsonStringProofs
  import opened Utf8

  /** A code point of the supplementary planes is written by exactly one pair. */
  lemma PairIsUnique(lead: nat, trail: nat, cp: nat)
    requires IsLead(lead) && IsTrail(trail) && 0x1_0000 <= cp <= 0x10_FFFF
    ensures PairCodePoint(lead, trail) == cp
       <==> lead == 0xD800 + (cp - 0x1_0000) / 0x400 && trail == 0xDC00 + (cp - 0x1_0000) % 0x400
  {
  }

  /** A "\u" escape is accepted exactly when it denotes a scalar value: a half of a
      surrogate pair on its own does not. */
  lemma EscapesAreScalars(s: CString, i: nat)
    requires i < |s| && s[i] != 0
    ensures UnicodeEscape(s, i).Ok? ==> IsScalar(UnicodeEscape(s, i).value)
    ensures UnicodeEscape(s, i).Ok? <==>
              && Hex4(s, i + 1).Some?
              && (var u := Hex4(s, i + 1).value;
                  || IsScalar(u)
                  || (IsLead(u) && s[i + 5] == BACKSLASH && s[i + 6] == 'u' as int
                      && Hex4(s, i + 7).Some? && IsTrail(Hex4(s, i + 7).value)))
  {
  }

  /** Bytes of multi-byte characters are copied as they are. */
  lemma {:induction false} RawRun(s: CString, i: nat, j: nat, end: nat, done: seq<byte>)
    requires i <= j <= end < |s| && forall k :: i <= k < j ==> s[k] >= 0x80
    ensures Unescape(s, i, end, done) == Unescape(s, j, end, done + s[i..j])
    ensures CloseQuote(s, i) == CloseQuote(s, j)
    decreases j - i
  {
    if i < j {
      RawRun(s, i + 1, j, end, done + [s[i]]);
      assert done + [s[i]] + s[i + 1..j] == done + s[i..j];
    } else {
      assert done + s[i..j] == done;
    }
  }

  /** The bytes of a Unicode escape are ASCII. */
  lemma EscapeIsAscii(s: CString, i: nat)
    requires i < |s| && s[i] == 'u' as int && UnicodeEscape(s, i).Ok?
    ensures forall k :: i <= k < UnicodeEscape(s, i).end ==> s[k] < 0x80
  {
    assert IsHex(s[i + 1]) && IsHex(s[i + 2]) && IsHex(s[i + 3]) && IsHex(s[i + 4]);
    if UnicodeEscape(s, i).end == i + 11 {
      assert IsHex(s[i + 7]) && IsHex(s[i + 8]) && IsHex(s[i + 9]) && IsHex(s[i + 10]);
    }
  }

  /** What an escape stands for is valid, and it is written in ASCII. */
  lemma StringCharUtf8(s: CString, i: nat)
    requires i < |s| && 0 < s[i] < 0x80 && StringChar(s, i).Ok?
    ensures IsUtf8(StringChar(s, i).value)
    ensures forall k :: i <= k < StringChar(s, i).end ==> s[k] < 0x80
  {
    var Ok(t, end) := StringChar(s, i);
    if s[i] == BACKSLASH && s[i + 1] == 'u' as int {
      EscapeIsAscii(s, i + 1);
      EscapesAreScalars(s, i + 1);
      EncodeDecodes(UnicodeEscape(s, i + 1).value);
    }
    assert IsUtf8Char(t);
    CharIsUtf8(t);
  }

  /** One step over the content: an ASCII character or escape, or a whole multi-byte
      character, both sides staying valid. */
  lemma {:induction false} UnescapeUtf8(s: CString, i: nat, end: nat, done: seq<byte>)
    requires i <= end < |s| && CloseQuote(s, i) == Some(end)
    requires IsUtf8(s[i..end]) && IsUtf8(done) && Unescape(s, i, end, done).Some?
    ensures IsUtf8(Unescape(s, i, end, done).value)
    decreases end - i
  {
    if i < end {
      var j, more;
      if s[i] < 0x80 {
        j, more := AsciiStep(s, i, end, done);
      } else {
        j, more := MultiByteStep(s, i, end, done);
      }
      UnescapeUtf8(s, j, end, more);
    }
  }

  lemma AsciiStep(s: CString, i: nat, end: nat, done: seq<byte>) returns (j: nat, more: seq<byte>)
    requires i < end < |s| && CloseQuote(s, i) == Some(end) && s[i] < 0x80
    requires IsUtf8(s[i..end]) && IsUtf8(done) && Unescape(s, i, end, done).Some?
    ensures i < j <= end && CloseQuote(s, j) == Some(end) && IsUtf8(s[j..end]) && IsUtf8(more)
    ensures Unescape(s, i, end, done) == Unescape(s, j, end, more)
  {
    j := StringChar(s, i).end;
    more := done + StringChar(s, i).value;
    StringCharUtf8(s, i);
    StringCharInside(s, i, end);
    DropAscii(s[i..end], j - i);
    assert s[i..end][j - i..] == s[j..end];
    AppendIsUtf8(done, StringChar(s, i).value);
  }

  lemma MultiByteStep(s: CString, i: nat, end: nat, done: seq<byte>) returns (j: nat, more: seq<byte>)
    requires i < end < |s| && CloseQuote(s, i) == Some(end) && s[i] >= 0x80
    requires IsUtf8(s[i..end]) && IsUtf8(done) && Unescape(s, i, end, done).Some?
    ensures i < j <= end && CloseQuote(s, j) == Some(end) && IsUtf8(s[j..end]) && IsUtf8(more)
    ensures Unescape(s, i, end, done) == Unescape(s, j, end, more)
  {
    var n := NumBytes(s[i]);
    j := i + n;
    more := done + s[i..j];
    assert s[i..end][0] == s[i] && s[i..end][..n] == s[i..j] && s[i..end][n..] == s[j..end];
    MultiByte(s, i, j);
    RawRun(s, i, j, end, done);
    CharIsUtf8(s[i..j]);
    AppendIsUtf8(done, s[i..j]);
  }

  lemma MultiByte(s: seq<byte>, i: nat, j: nat)
    requires i < j <= |s| && s[i] >= 0x80 && IsUtf8Char(s[i..j])
    ensures forall k :: i <= k < j ==> s[k] >= 0x80
  {
    forall k | i <= k < j ensures s[k] >= 0x80 { assert s[k] == s[i..j][k - i]; }
  }

  /** A string whose text between the quotes is valid UTF-8 is read as valid UTF-8. */
  lemma QuotedUtf8(s: CString, i: nat)
    requires i < |s| && QuotedString(s, i).Ok?
    requires IsUtf8(s[i + 1..QuotedString(s, i).end - 1])
    ensures IsUtf8(QuotedString(s, i).value)
  {
    UnescapeUtf8(s, i + 1, QuotedString(s, i).end - 1, []);
  }
}
