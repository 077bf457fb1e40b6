/** parson's parser as it runs: a cursor that moves over a C string. Every index is
    proved to lie on the string or its terminator, every write inside the buffer
    allocated for it, and every result to be the one JsonGrammar describes. */
module JsonParser {
  import opened Bytes
  import opened JsonTree
  import opened JsonText
  import opened JsonGrammar
  import opened JsonStringProofs
  import Utf8

  method SkipWhitespaces(s: CString, i: nat) returns (j: nat)
    requires i < |s|
    ensures j == SkipWs(s, i)
  {
    j := i;
    while IsSpace(s[j])
      invariant i <= j < |s| && SkipWs(s, i) == SkipWs(s, j)
      decreases |s| - j
    {
      j := j + 1;
    }
  }

  /** skip_quotes: past the closing quote, or as far as it got. */
  method SkipQuotes(s: CString, i: nat) returns (ok: bool, j: nat)
    requires i < |s|
    ensures i <= j < |s|
    ensures ok <==> s[i] == QUOTE && CloseQuote(s, i + 1).Some?
    ensures ok ==> j == CloseQuote(s, i + 1).value + 1
  {
    ok, j := false, i;
    if s[j] != QUOTE { return; }
    j := j + 1;
    while s[j] != QUOTE
      invariant i < j < |s| && CloseQuote(s, i + 1) == CloseQuote(s, j)
      decreases |s| - j
    {
      if s[j] == 0 {
        return;
      } else if s[j] == BACKSLASH {
        j := j + 1;
        if s[j] == 0 { return; }
      }
      j := j + 1;
    }
    j := j + 1;
    ok := true;
  }

  /** The masks of parse_utf16 are superfluous. */
  lemma MaskedBytes(cp: nat)
    requires cp <= 0x10_FFFF
    ensures var e := Utf8.Encode(cp);
            if cp < 0x80 then e == [cp]
            else if cp < 0x800 then e == [cp / 0x40 % 0x20 + 0xC0, cp % 0x40 + 0x80]
            else if cp < 0x1_0000 then
              e == [cp / 0x1000 % 0x10 + 0xE0, cp / 0x40 % 0x40 + 0x80, cp % 0x40 + 0x80]
            else
              e == [cp / 0x4_0000 % 8 + 0xF0, cp / 0x1000 % 0x40 + 0x80, cp / 0x40 % 0x40 + 0x80, cp % 0x40 + 0x80]
  {
    assert cp / 0x1000 == Utf8.High(Utf8.High(cp));
    assert cp / 0x4_0000 == Utf8.High(Utf8.High(Utf8.High(cp)));
  }

  lemma MaskedPair(lead: nat, trail: nat)
    requires IsLead(lead) && IsTrail(trail)
    ensures (lead - 0xD800) % 0x400 * 0x400 + (trail - 0xDC00) % 0x400 + 0x1_0000 == PairCodePoint(lead, trail)
  {
  }

  /** The branches of parse_utf16 that write a code point; op' is the last byte written. */
  method WriteCodePoint(cp: nat, out: array<byte>, op: nat) returns (op': nat)
    requires cp <= 0x10_FFFF && op + |Utf8.Encode(cp)| <= out.Length
    modifies out
    ensures op' + 1 == op + |Utf8.Encode(cp)|
    ensures out[..op' + 1] == old(out[..op]) + Utf8.Encode(cp)
  {
    op' := op;
    MaskedBytes(cp);
    ghost var e, before := Utf8.Encode(cp), out[..op];
    if cp < 0x80 {
      out[op] := cp;
    } else if cp < 0x800 {
      out[op] := cp / 0x40 % 0x20 + 0xC0;
      out[op + 1] := cp % 0x40 + 0x80;
      op' := op + 1;
    } else if cp < 0x1_0000 {
      out[op] := cp / 0x1000 % 0x10 + 0xE0;
      out[op + 1] := cp / 0x40 % 0x40 + 0x80;
      out[op + 2] := cp % 0x40 + 0x80;
      op' := op + 2;
    } else {
      out[op] := cp / 0x4_0000 % 8 + 0xF0;
      out[op + 1] := cp / 0x1000 % 0x40 + 0x80;
      out[op + 2] := cp / 0x40 % 0x40 + 0x80;
      out[op + 3] := cp % 0x40 + 0x80;
      op' := op + 3;
    }
    assert forall k :: 0 <= k < |e| ==> out[op + k] == e[k];
    assert out[..op] == before;
    assert out[..op' + 1] == before + e;
  }

  /** parse_utf16: i is at the u; on success i' and op' are at the last byte read and
      the last byte written. */
  method ParseUtf16(s: CString, i: nat, out: array<byte>, op: nat) returns (ok: bool, i': nat, op': nat)
    requires i < |s| && s[i] != 0 && op <= out.Length
    requires UnicodeEscape(s, i).Ok? ==> op + |Utf8.Encode(UnicodeEscape(s, i).value)| <= out.Length
    modifies out
    ensures ok <==> UnicodeEscape(s, i).Ok?
    ensures ok ==> i' + 1 == UnicodeEscape(s, i).end && op <= op' < out.Length
    ensures ok ==> out[..op' + 1] == old(out[..op]) + Utf8.Encode(UnicodeEscape(s, i).value)
  {
    ok, i', op' := false, i, op;
    var hex := Hex4(s, i + 1);
    if hex.None? { return; }
    var cp := hex.value;
    var p := i + 1;
    if 0xD800 <= cp <= 0xDBFF {
      p := p + 4;
      if s[p] != BACKSLASH || s[p + 1] != 'u' as int { return; }
      p := p + 2;
      var trail := Hex4(s, p);
      if trail.None? || trail.value < 0xDC00 || trail.value > 0xDFFF { return; }
      MaskedPair(cp, trail.value);
      cp := (cp - 0xD800) % 0x400 * 0x400 + (trail.value - 0xDC00) % 0x400 + 0x1_0000;
    } else if 0xDC00 <= cp <= 0xDFFF {
      return;
    }
    op' := WriteCodePoint(cp, out, op);
    ok, i' := true, p + 3;
  }

  /** The body of its caller's loop: one character or escape. */
  method ProcessChar(s: CString, i: nat, out: array<byte>, op: nat) returns (ok: bool, i': nat, op': nat)
    requires i < |s| && s[i] != 0
    requires StringChar(s, i).Ok? ==> op + |StringChar(s, i).value| <= out.Length
    requires op < out.Length
    modifies out
    ensures ok <==> StringChar(s, i).Ok?
    ensures ok ==> i' == StringChar(s, i).end && op' == op + |StringChar(s, i).value|
    ensures ok ==> out[..op'] == old(out[..op]) + StringChar(s, i).value
  {
    i', op' := i, op;
    if s[i] == BACKSLASH {
      i' := i' + 1;
      if s[i'] == 'u' as int {
        ok, i', op' := ParseUtf16(s, i', out, op);
        if !ok { return; }
      } else {
        var c := SimpleEscape(s[i']);
        if c.None? { return false, i', op'; }
        out[op] := c.value;
      }
    } else if s[i] < 0x20 {
      return false, i', op';
    } else {
      out[op] := s[i];
    }
    ok, i', op' := true, i' + 1, op' + 1;
  }

  /** process_string on the content between start and its closing quote. The output
      buffer has one byte more than the content, and no write leaves it. */
  method ProcessString(s: CString, start: nat, len: nat) returns (r: Option<seq<byte>>)
    requires start <= start + len < |s| && CloseQuote(s, start) == Some(start + len)
    ensures r == Unescape(s, start, start + len, [])
  {
    var out := new byte[len + 1];
    ghost var end := start + len;
    var ip, op := start, 0;
    while s[ip] != 0 && ip - start < len
      invariant start <= ip <= end && 0 <= op <= ip - start
      invariant CloseQuote(s, ip) == Some(end)
      invariant Unescape(s, start, end, []) == Unescape(s, ip, end, out[..op])
      decreases end - ip
    {
      ghost var ip0 := ip;
      var ok;
      ok, ip, op := ProcessChar(s, ip, out, op);
      if !ok { return None; }
      StringCharInside(s, ip0, end);
    }
    out[op] := 0;
    r := Some(out[..op]);
  }

  /** A parse function's value and cursor are those of its specification; NULL is None. */
  predicate Returns<T(==)>(p: Parsed<T>, r: Option<T>, j: nat) {
    if r.Some? then p == Ok(r.value, j) else p == Fail
  }

  method GetQuotedString(s: CString, i: nat) returns (r: Option<seq<byte>>, j: nat)
    requires i < |s|
    ensures i <= j < |s| && Returns(QuotedString(s, i), r, j)
  {
    var ok;
    ok, j := SkipQuotes(s, i);
    if !ok { return None, j; }
    r := ProcessString(s, i + 1, j - i - 2);
  }

  method IsDecimalToken(t: seq<byte>) returns (ok: bool)
    ensures ok <==> IsDecimal(t)
  {
    if |t| > 1 && t[0] == ZERO && t[1] != DOT { return false; }
    if |t| > 2 && t[0] == MINUS && t[1] == ZERO && t[2] != DOT { return false; }
    var length := |t|;
    while length > 0
      invariant 0 <= length <= |t|
      invariant forall k :: length <= k < |t| ==> Lower(t[k]) != 'x' as int
    {
      length := length - 1;
      if t[length] == 'x' as int || t[length] == 'X' as int { return false; }
    }
    ok := true;
  }

  method ParseNumberValue(s: CString, i: nat) returns (r: Option<Value>, j: nat)
    requires i < |s|
    ensures i <= j < |s| && Returns(ParseNumber(s, i), r, j)
  {
    j := i;
    match Strtod(s, i)
    case NoConversion => r := Some(Number(false, 0));
    case InfinityOrNan => r := None;
    case Hexadecimal => r := None;
    case Decimals(end) =>
      if StrtodErrno(s, i) != NoError { return None, i; }
      var ok := IsDecimalToken(s[i..end]);
      if !ok { return None, i; }
      r, j := Some(NumberOf(s[i..end])), end;
  }

  method ParseStringValue(s: CString, i: nat) returns (r: Option<Value>, j: nat)
    requires i < |s|
    ensures i <= j < |s| && Returns(ParseString(s, i), r, j)
  {
    var t;
    t, j := GetQuotedString(s, i);
    r := if t.None? then None else Some(String(t.value));
  }

  /** parse_boolean_value and parse_null_value: strncmp against a token. */
  method ParseTokenValue(s: CString, i: nat, token: seq<byte>, v: Value) returns (r: Option<Value>, j: nat)
    requires i < |s| && NoNul(token)
    ensures i <= j < |s| && Returns(ParseToken(s, i, token, v), r, j)
  {
    r, j := None, i;
    if At(s, i, token) {
      assert |token| > 0 ==> s[i + |token| - 1] == token[|token| - 1];
      r, j := Some(v), i + |token|;
    }
  }

  method ParseBooleanValue(s: CString, i: nat) returns (r: Option<Value>, j: nat)
    requires i < |s|
    ensures i <= j < |s| && Returns(ParseBoolean(s, i), r, j)
  {
    r, j := ParseTokenValue(s, i, TRUE_TOKEN, Bool(true));
    if r.None? { r, j := ParseTokenValue(s, i, FALSE_TOKEN, Bool(false)); }
  }

  method ParseJsonValue(s: CString, i: nat, n: nat) returns (r: Option<Value>, j: nat)
    requires i < |s|
    ensures i <= j < |s| && Returns(ParseValue(s, i, n), r, j)
    decreases |s| - i, 1
  {
    if n > MAX_NESTING { return None, i; }
    j := SkipWhitespaces(s, i);
    if s[j] == LBRACE {
      r, j := ParseObjectValue(s, j, n + 1);
    } else if s[j] == LBRACKET {
      r, j := ParseArrayValue(s, j, n + 1);
    } else if s[j] == QUOTE {
      r, j := ParseStringValue(s, j);
    } else if s[j] == 'f' as int || s[j] == 't' as int {
      r, j := ParseBooleanValue(s, j);
    } else if s[j] == MINUS || IsDigit(s[j]) {
      r, j := ParseNumberValue(s, j);
    } else if s[j] == 'n' as int {
      r, j := ParseTokenValue(s, j, NULL_TOKEN, Null);
    } else {
      r := None;
    }
  }

  method ParseArrayValue(s: CString, i: nat, n: nat) returns (r: Option<Value>, j: nat)
    requires i < |s|
    ensures i <= j < |s| && Returns(ParseArray(s, i, n), r, j)
    decreases |s| - i, 0
  {
    r, j := None, i;
    if s[j] != LBRACKET { return; }
    j := SkipWhitespaces(s, j + 1);
    if s[j] == RBRACKET { return Some(Array([])), j + 1; }
    var items;
    items, j := ParseArrayLoop(s, j, n);
    if items.None? { return None, j; }
    j := SkipWhitespaces(s, j);
    if s[j] != RBRACKET || |items.value| == 0 { return None, j; }
    r, j := Some(Array(items.value)), j + 1;
  }

  /** parse_array_value's loop body up to the byte behind the item. */
  method ParseNextItem(s: CString, i: nat, n: nat, items: seq<Value>) returns (r: Option<seq<Value>>, j: nat)
    requires i < |s| && s[i] != 0
    ensures i <= j < |s|
    ensures r.None? ==> ParseItems(s, i, n, items) == Fail
    ensures r.Some? ==> SkipWs(s, j) == j && ParseItems(s, i, n, items) == AfterItem(s, j, n, r.value)
    ensures r.Some? ==> r.value != []
    decreases |s| - i, 2
  {
    var item;
    item, j := ParseJsonValue(s, i, n);
    if item.None? { return None, j; }
    j := SkipWhitespaces(s, j);
    r := Some(items + [item.value]);
  }

  /** The loop of parse_array_value: where it stops there is neither an item nor a comma. */
  method ParseArrayLoop(s: CString, i: nat, n: nat) returns (r: Option<seq<Value>>, j: nat)
    requires i < |s|
    ensures i <= j < |s|
    ensures r.None? ==> ParseItems(s, i, n, []) == Fail
    ensures r.Some? ==> s[j] != COMMA
    ensures r.Some? ==> ParseItems(s, i, n, []) == if s[j] == 0 then Fail else AfterItem(s, j, n, r.value)
    ensures r.Some? && s[j] != 0 ==> r.value != [] && SkipWs(s, j) == j
    decreases |s| - i, 3
  {
    var items: seq<Value> := [];
    ghost var whole := ParseItems(s, i, n, []);
    j := i;
    while s[j] != 0
      invariant i <= j < |s| && whole == ParseItems(s, j, n, items)
      decreases |s| - j
    {
      var next;
      next, j := ParseNextItem(s, j, n, items);
      if next.None? { return None, j; }
      items := next.value;
      if s[j] != COMMA { break; }
      j := SkipWhitespaces(s, j + 1);
    }
    r := Some(items);
  }

  /** json_object_add, as the parser uses it: refuses a name that is taken. */
  method AddMember(ms: seq<Member>, m: Member) returns (r: Option<seq<Member>>)
    ensures r == if HasName(ms, m.name) then None else Some(ms + [m])
  {
    for k := 0 to |ms|
      invariant !HasName(ms[..k], m.name)
    {
      if ms[k].name == m.name { return None; }
      assert ms[..k + 1] == ms[..k] + [ms[k]];
    }
    assert ms[..|ms|] == ms;
    r := Some(ms + [m]);
  }

  method ParseObjectValue(s: CString, i: nat, n: nat) returns (r: Option<Value>, j: nat)
    requires i < |s|
    ensures i <= j < |s| && Returns(ParseObject(s, i, n), r, j)
    decreases |s| - i, 0
  {
    r, j := None, i;
    if s[j] != LBRACE { return; }
    j := SkipWhitespaces(s, j + 1);
    if s[j] == RBRACE { return Some(Object([])), j + 1; }
    var ms;
    ms, j := ParseObjectLoop(s, j, n);
    if ms.None? { return None, j; }
    j := SkipWhitespaces(s, j);
    if s[j] != RBRACE || |ms.value| == 0 { return None, j; }
    r, j := Some(Object(ms.value)), j + 1;
  }

  method ParseNameColon(s: CString, i: nat) returns (r: Option<seq<byte>>, j: nat)
    requires i < |s|
    ensures i <= j < |s| && Returns(ParseKey(s, i), r, j)
  {
    r, j := GetQuotedString(s, i);
    if r.None? || !NoNul(r.value) { return None, j; }
    j := SkipWhitespaces(s, j);
    if s[j] != COLON { return None, j; }
    j := j + 1;
  }

  /** The key, the colon and the value at the head of parse_object_value's loop body. */
  method ParseNameValue(s: CString, i: nat, n: nat) returns (r: Option<Member>, j: nat)
    requires i < |s|
    ensures i <= j < |s| && Returns(ParseMember(s, i, n), r, j)
    decreases |s| - i, 2
  {
    var name, value;
    name, j := ParseNameColon(s, i);
    if name.None? { return None, j; }
    value, j := ParseJsonValue(s, j, n);
    r := if value.None? then None else Some(Member(name.value, value.value));
  }

  /** parse_object_value's loop body up to the byte behind the member. */
  method ParseNextMember(s: CString, i: nat, n: nat, ms: seq<Member>) returns (r: Option<seq<Member>>, j: nat)
    requires i < |s| && s[i] != 0
    ensures i <= j < |s|
    ensures r.None? ==> ParseMembers(s, i, n, ms) == Fail
    ensures r.Some? ==> i < j && SkipWs(s, j) == j && ParseMembers(s, i, n, ms) == AfterMember(s, j, n, r.value)
    ensures r.Some? ==> r.value != []
    decreases |s| - i, 3
  {
    var m;
    m, j := ParseNameValue(s, i, n);
    if m.None? { return None, j; }
    r := AddMember(ms, m.value);
    if r.Some? { j := SkipWhitespaces(s, j); }
  }

  /** The loop of parse_object_value: where it stops there is neither an entry nor a comma. */
  method ParseObjectLoop(s: CString, i: nat, n: nat) returns (r: Option<seq<Member>>, j: nat)
    requires i < |s|
    ensures i <= j < |s|
    ensures r.None? ==> ParseMembers(s, i, n, []) == Fail
    ensures r.Some? ==> s[j] != COMMA && ParseMembers(s, i, n, []) == AfterMember(s, j, n, r.value)
    ensures r.Some? && s[j] != 0 ==> r.value != [] && SkipWs(s, j) == j
    decreases |s| - i, 5
  {
    var ms: seq<Member> := [];
    ghost var whole := ParseMembers(s, i, n, []);
    j := i;
    while s[j] != 0
      invariant i <= j < |s| && whole == ParseMembers(s, j, n, ms)
      decreases |s| - j
    {
      var more;
      r, more, j := ParseObjectTurn(s, j, n, ms);
      if !more { return; }
      ms := r.value;
    }
    NothingLeft(s, j, n, ms);
    r := Some(ms);
  }

  /** One turn: more says that a comma followed the member. */
  method ParseObjectTurn(s: CString, i: nat, n: nat, ms: seq<Member>) returns (r: Option<seq<Member>>, more: bool,
                         j: nat)
    requires i < |s| && s[i] != 0
    ensures i <= j < |s| && (r.None? ==> !more && ParseMembers(s, i, n, ms) == Fail)
    ensures r.Some? && more ==> i < j && ParseMembers(s, i, n, ms) == ParseMembers(s, j, n, r.value)
    ensures r.Some? && !more ==> s[j] != COMMA && ParseMembers(s, i, n, ms) == AfterMember(s, j, n, r.value)
    ensures r.Some? && !more ==> r.value != [] && SkipWs(s, j) == j
    decreases |s| - i, 4
  {
    r, j := ParseNextMember(s, i, n, ms);
    more := r.Some? && s[j] == COMMA;
    if more {
      var k := SkipWhitespaces(s, j + 1);
      CommaGoesOn(s, j, k, n, r.value);
      j := k;
    }
  }

  lemma CommaGoesOn(s: CString, j: nat, k: nat, n: nat, ms: seq<Member>)
    requires j < |s| && s[j] == COMMA && k == SkipWs(s, j + 1)
    ensures AfterMember(s, j, n, ms) == ParseMembers(s, k, n, ms)
  {
  }

  lemma NothingLeft(s: CString, j: nat, n: nat, ms: seq<Member>)
    requires j < |s| && s[j] == 0
    ensures ParseMembers(s, j, n, ms) == Fail && AfterMember(s, j, n, ms) == Fail
  {
  }

  method JsonParseString(s: CString) returns (r: Option<Value>)
    ensures r.Some? <==> Parse(s).Ok?
    ensures r.Some? ==> r.value == Parse(s).value
  {
    var i, j := 0, 0;
    if At(s, 0, [0xEF, 0xBB, 0xBF]) {
      assert s[..3] == [0xEF, 0xBB, 0xBF];
      i := 3;
    }
    r, j := ParseJsonValue(s, i, 0);
  }
}
