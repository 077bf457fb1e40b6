/** What parson's parser reads: each function is the specification of the parse function
    of the same name, from a cursor position to a value and the position after it. A
    failure of the parser is Fail; the cursor never passes the terminator, since the last
    byte of a C string is its only NUL and no function moves behind one. */
module JsonGrammar {
  import opened Bytes
  import opened JsonTree
  import opened JsonText
  import DoubleRange
  import Utf8

  datatype Parsed<+T> = Fail | Ok(value: T, end: nat)

  // ---------------------------------------------------------------- strings

  /** skip_quotes after the opening quote: the position of the closing one. */
  function CloseQuote(s: CString, i: nat): (r: Option<nat>)
    requires i < |s|
    ensures r.Some? ==> i <= r.value < |s| - 1 && s[r.value] == QUOTE
    decreases |s| - i
  {
    if s[i] == QUOTE then Some(i)
    else if s[i] == 0 then None
    else if s[i] == BACKSLASH then
      if s[i + 1] == 0 then None else CloseQuote(s, i + 2)
    else CloseQuote(s, i + 1)
  }

  function HexValue(c: byte): (r: int)
    ensures -1 <= r < 16
  {
    if '0' as int <= c <= '9' as int then c - '0' as int
    else if 'a' as int <= c <= 'f' as int then c - 'a' as int + 10
    else if 'A' as int <= c <= 'F' as int then c - 'A' as int + 10
    else -1
  }

  predicate IsHex(c: byte) {
    HexValue(c) >= 0
  }

  /** Four hex digits at i, as "4HEXDIG" of section 7 of RFC 8259. */
  function Hex4(s: CString, i: nat): (r: Option<nat>)
    requires i < |s|
    ensures r.Some? ==> r.value < 0x1_0000 && i + 4 < |s|
  {
    if s[i] == 0 || s[i + 1] == 0 || s[i + 2] == 0 || s[i + 3] == 0 then None
    else if IsHex(s[i]) && IsHex(s[i + 1]) && IsHex(s[i + 2]) && IsHex(s[i + 3]) then
      Some(HexValue(s[i]) * 0x1000 + HexValue(s[i + 1]) * 0x100 + HexValue(s[i + 2]) * 0x10 + HexValue(s[i + 3]))
    else None
  }

  predicate IsLead(u: nat) {
    0xD800 <= u <= 0xDBFF
  }

  predicate IsTrail(u: nat) {
    0xDC00 <= u <= 0xDFFF
  }

  /** The code point of a surrogate pair, section 7 of RFC 8259. */
  function PairCodePoint(lead: nat, trail: nat): (cp: nat)
    requires IsLead(lead) && IsTrail(trail)
    ensures 0x1_0000 <= cp <= 0x10_FFFF
  {
    0x1_0000 + (lead - 0xD800) * 0x400 + (trail - 0xDC00)
  }

  /** The code point a "\u" escape denotes; i is the position of the u. */
  function UnicodeEscape(s: CString, i: nat): (r: Parsed<nat>)
    requires i < |s| && s[i] != 0
    ensures r.Ok? ==> r.end in {i + 5, i + 11} && r.end < |s| && r.value <= 0x10_FFFF
  {
    match Hex4(s, i + 1)
    case None => Fail
    case Some(u) =>
      if IsTrail(u) then Fail
      else if !IsLead(u) then Ok(u, i + 5)
      else if s[i + 5] != BACKSLASH || s[i + 6] != 'u' as int then Fail
      else
        match Hex4(s, i + 7)
        case Some(w) => if IsTrail(w) then Ok(PairCodePoint(u, w), i + 11) else Fail
        case None => Fail
  }

  /** The byte a two-character escape denotes. */
  function SimpleEscape(c: byte): Option<byte> {
    if c == QUOTE then Some(QUOTE)
    else if c == BACKSLASH then Some(BACKSLASH)
    else if c == SLASH then Some(SLASH)
    else if c == 'b' as int then Some(8)
    else if c == 'f' as int then Some(12)
    else if c == 'n' as int then Some(10)
    else if c == 'r' as int then Some(13)
    else if c == 't' as int then Some(9)
    else None
  }

  /** One character of a string's content: the bytes it stands for. */
  function StringChar(s: CString, i: nat): (r: Parsed<seq<byte>>)
    requires i < |s| && s[i] != 0
    ensures r.Ok? ==> i < r.end < |s|
    ensures r.Ok? ==> |r.value| <= r.end - i
  {
    if s[i] == BACKSLASH then
      if s[i + 1] == 'u' as int then
        match UnicodeEscape(s, i + 1)
        case Fail => Fail
        case Ok(cp, end) => Ok(Utf8.Encode(cp), end)
      else
        match SimpleEscape(s[i + 1])
        case None => Fail
        case Some(c) => Ok([c], i + 2)
    else if s[i] < 0x20 then Fail
    else Ok([s[i]], i + 1)
  }

  /** process_string from i on, with done already written. */
  function Unescape(s: CString, i: nat, end: nat, done: seq<byte>): (r: Option<seq<byte>>)
    requires i < |s|
    decreases |s| - i
  {
    if s[i] == 0 || i >= end then Some(done)
    else
      match StringChar(s, i)
      case Fail => None
      case Ok(t, j) => Unescape(s, j, end, done + t)
  }

  /** get_quoted_string. */
  function QuotedString(s: CString, i: nat): (r: Parsed<seq<byte>>)
    requires i < |s|
    ensures r.Ok? ==> i + 1 < r.end < |s|
  {
    if s[i] != QUOTE then Fail
    else
      match CloseQuote(s, i + 1)
      case None => Fail
      case Some(q) =>
        match Unescape(s, i + 1, q, [])
        case None => Fail
        case Some(t) => Ok(t, q + 1)
  }

  // ---------------------------------------------------------------- numbers

  function DigitsEnd(s: CString, i: nat): (r: nat)
    requires i < |s|
    ensures i <= r < |s| && !IsDigit(s[r])
    ensures forall k :: i <= k < r ==> IsDigit(s[k])
    decreases |s| - i
  {
    if IsDigit(s[i]) then DigitsEnd(s, i + 1) else i
  }

  /** The number v with the digits of t behind its own. */
  function DigitsOnto(v: nat, t: seq<byte>): nat
    requires forall k :: 0 <= k < |t| ==> IsDigit(t[k])
  {
    if t == [] then v
    else
      assert IsDigit(t[|t| - 1]);
      10 * DigitsOnto(v, t[..|t| - 1]) + (t[|t| - 1] - ZERO)
  }

  function DigitsValue(t: seq<byte>): nat
    requires forall k :: 0 <= k < |t| ==> IsDigit(t[k])
  {
    DigitsOnto(0, t)
  }

  /** "inf" or "nan" in any case at i. */
  predicate SpecialAhead(s: CString, i: nat)
    requires i < |s|
  {
    && s[i] != 0 && s[i + 1] != 0 && s[i + 2] != 0
    && [Lower(s[i]), Lower(s[i + 1]), Lower(s[i + 2])] in [[105, 110, 102], [110, 97, 110]]
  }

  /** "0x" and a hexadecimal digit, with a point between them or not, at i. */
  predicate HexAhead(s: CString, i: nat)
    requires i < |s|
  {
    && s[i] == ZERO && Lower(s[i + 1]) == 'x' as int
    && (IsHex(s[i + 2]) || (s[i + 2] == DOT && IsHex(s[i + 3])))
  }

  function ExponentEnd(s: CString, i: nat): (r: nat)
    requires i < |s|
    ensures i <= r < |s|
  {
    if Lower(s[i]) != 'e' as int then i
    else
      var k := if s[i + 1] == '+' as int || s[i + 1] == MINUS then i + 2 else i + 1;
      if IsDigit(s[k]) then DigitsEnd(s, k) else i
  }

  /** How far strtod reads from a digit or a minus sign, and what kind of number. */
  datatype Conversion =
    | NoConversion
    | InfinityOrNan
    | Hexadecimal
    | Decimals(end: nat)

  /** strtod after the sign. */
  function StrtodMagnitude(s: CString, k: nat): (r: Conversion)
    requires k < |s|
    ensures r.Decimals? ==> k < r.end < |s|
  {
    if SpecialAhead(s, k) then InfinityOrNan
    else if HexAhead(s, k) then Hexadecimal
    else
      var a := DigitsEnd(s, k);
      var b := if s[a] == DOT then DigitsEnd(s, a + 1) else a;
      if a == k && b <= a + 1 then NoConversion else Decimals(ExponentEnd(s, b))
  }

  function Strtod(s: CString, i: nat): Conversion
    requires i < |s|
  {
    StrtodMagnitude(s, if s[i] == MINUS then i + 1 else i)
  }

  /** The exponent that starts at b, or zero when there is none. */
  function ExponentValue(s: CString, b: nat): int
    requires b < |s|
  {
    if ExponentEnd(s, b) == b then 0
    else
      var k := if s[b + 1] == '+' as int || s[b + 1] == MINUS then b + 2 else b + 1;
      var v: int := DigitsValue(Digits(s, k));
      if s[b + 1] == MINUS then -v else v
  }

  /** The digits from k on. */
  function Digits(s: CString, k: nat): (t: seq<byte>)
    requires k < |s|
    ensures t == s[k..DigitsEnd(s, k)] && AllDigits(t)
  {
    s[k..DigitsEnd(s, k)]
  }

  /** What strtod leaves in errno. */
  datatype Errno = NoError | RangeError

  /** strtod after the sign. */
  function MagnitudeErrno(s: CString, k: nat): Errno
    requires k < |s|
  {
    var a := DigitsEnd(s, k);
    var frac := if s[a] == DOT then Digits(s, a + 1) else [];
    var b := if s[a] == DOT then DigitsEnd(s, a + 1) else a;
    DigitsErrno(Digits(s, k), frac, ExponentValue(s, b))
  }

  /** For the decimal with these digits around its point and this exponent. */
  function DigitsErrno(whole: seq<byte>, frac: seq<byte>, exp: int): Errno
    requires AllDigits(whole) && AllDigits(frac)
  {
    if DoubleRange.InRange(DoubleRange.DOUBLE, DigitsOnto(DigitsValue(whole), frac), exp - |frac|) then NoError
    else RangeError
  }

  function StrtodErrno(s: CString, i: nat): Errno
    requires i < |s|
  {
    MagnitudeErrno(s, if s[i] == MINUS then i + 1 else i)
  }

  /** is_decimal: no superfluous leading zero and no hexadecimal marker. */
  predicate IsDecimal(t: seq<byte>) {
    && !(|t| > 1 && t[0] == ZERO && t[1] != DOT)
    && !(|t| > 2 && t[0] == MINUS && t[1] == ZERO && t[2] != DOT)
    && forall k :: 0 <= k < |t| ==> Lower(t[k]) != 'x' as int
  }

  predicate AllDigits(t: seq<byte>) {
    forall k :: 0 <= k < |t| ==> IsDigit(t[k])
  }

  /** The double a decimal token denotes: exact for an integer up to 2^53. */
  function NumberOf(token: seq<byte>): Value {
    var neg := token != [] && token[0] == MINUS;
    var digits := if neg then token[1..] else token;
    if AllDigits(digits) && DigitsValue(digits) <= MAX_EXACT then Number(neg, DigitsValue(digits))
    else Real(token)
  }

  /** parse_number_value. strtod accepting nothing still yields zero, in place. */
  function ParseNumber(s: CString, i: nat): (r: Parsed<Value>)
    requires i < |s|
    ensures r.Ok? ==> i <= r.end < |s|
  {
    match Strtod(s, i)
    case NoConversion => Ok(Number(false, 0), i)
    case InfinityOrNan => Fail
    case Hexadecimal => Fail
    case Decimals(end) =>
      if StrtodErrno(s, i) == NoError && IsDecimal(s[i..end]) then Ok(NumberOf(s[i..end]), end) else Fail
  }

  // ----------------------------------------------------------------- values

  function ParseToken(s: CString, i: nat, token: seq<byte>, v: Value): (r: Parsed<Value>)
    requires i < |s| && NoNul(token)
    ensures r.Ok? ==> i <= r.end < |s|
  {
    if At(s, i, token) then
      assert |token| > 0 ==> s[i + |token| - 1] == token[|token| - 1];
      Ok(v, i + |token|)
    else Fail
  }

  function ParseBoolean(s: CString, i: nat): (r: Parsed<Value>)
    requires i < |s|
    ensures r.Ok? ==> i <= r.end < |s|
  {
    if At(s, i, TRUE_TOKEN) then ParseToken(s, i, TRUE_TOKEN, Bool(true))
    else ParseToken(s, i, FALSE_TOKEN, Bool(false))
  }

  function ParseString(s: CString, i: nat): (r: Parsed<Value>)
    requires i < |s|
    ensures r.Ok? ==> i <= r.end < |s|
  {
    match QuotedString(s, i)
    case Fail => Fail
    case Ok(t, end) => Ok(String(t), end)
  }

  function ParseValue(s: CString, i: nat, n: nat): (r: Parsed<Value>)
    requires i < |s|
    ensures r.Ok? ==> i <= r.end < |s|
    decreases |s| - i, 2
  {
    if n > MAX_NESTING then Fail else ParseSwitch(s, SkipWs(s, i), n)
  }

  /** The switch of parse_value. */
  function ParseSwitch(s: CString, j: nat, n: nat): (r: Parsed<Value>)
    requires j < |s|
    ensures r.Ok? ==> j <= r.end < |s|
    decreases |s| - j, 1
  {
    if s[j] == LBRACE then ParseObject(s, j, n + 1)
    else if s[j] == LBRACKET then ParseArray(s, j, n + 1)
    else if s[j] == QUOTE then ParseString(s, j)
    else if s[j] == 'f' as int || s[j] == 't' as int then ParseBoolean(s, j)
    else if s[j] == MINUS || IsDigit(s[j]) then ParseNumber(s, j)
    else if s[j] == 'n' as int then ParseToken(s, j, NULL_TOKEN, Null)
    else Fail
  }

  function ParseArray(s: CString, i: nat, n: nat): (r: Parsed<Value>)
    requires i < |s|
    ensures r.Ok? ==> i < r.end < |s|
    decreases |s| - i, 0
  {
    if s[i] != LBRACKET then Fail
    else
      var j := SkipWs(s, i + 1);
      if s[j] == RBRACKET then Ok(Array([]), j + 1)
      else
        match ParseItems(s, j, n, [])
        case Fail => Fail
        case Ok(items, end) => Ok(Array(items), end)
  }

  /** The loop of parse_array_value, with the items read so far. */
  function ParseItems(s: CString, i: nat, n: nat, done: seq<Value>): (r: Parsed<seq<Value>>)
    requires i < |s|
    ensures r.Ok? ==> i < r.end < |s|
    decreases |s| - i, 3
  {
    if s[i] == 0 then Fail
    else
      match ParseValue(s, i, n)
      case Fail => Fail
      case Ok(v, j) => AfterItem(s, SkipWs(s, j), n, done + [v])
  }

  /** Behind an item: a comma and more items, or the end of the array. */
  function AfterItem(s: CString, k: nat, n: nat, items: seq<Value>): (r: Parsed<seq<Value>>)
    requires k < |s|
    ensures r.Ok? ==> k < r.end < |s|
    decreases |s| - k, 0
  {
    if s[k] == COMMA then ParseItems(s, SkipWs(s, k + 1), n, items)
    else if s[k] == RBRACKET then Ok(items, k + 1)
    else Fail
  }

  function ParseObject(s: CString, i: nat, n: nat): (r: Parsed<Value>)
    requires i < |s|
    ensures r.Ok? ==> i < r.end < |s|
    decreases |s| - i, 0
  {
    if s[i] != LBRACE then Fail
    else
      var j := SkipWs(s, i + 1);
      if s[j] == RBRACE then Ok(Object([]), j + 1)
      else
        match ParseMembers(s, j, n, [])
        case Fail => Fail
        case Ok(ms, end) => Ok(Object(ms), end)
  }

  /** A key and its colon; keys with an embedded NUL are refused. */
  function ParseKey(s: CString, i: nat): (r: Parsed<seq<byte>>)
    requires i < |s|
    ensures r.Ok? ==> i < r.end < |s| && NoNul(r.value)
  {
    match QuotedString(s, i)
    case Fail => Fail
    case Ok(name, j) =>
      var k := SkipWs(s, j);
      if NoNul(name) && s[k] == COLON then Ok(name, k + 1) else Fail
  }

  /** A key, its colon and its value. */
  function ParseMember(s: CString, i: nat, n: nat): (r: Parsed<Member>)
    requires i < |s|
    ensures r.Ok? ==> i < r.end < |s| && NoNul(r.value.name)
    decreases |s| - i, 3
  {
    match ParseKey(s, i)
    case Fail => Fail
    case Ok(name, c) =>
      match ParseValue(s, c, n)
      case Fail => Fail
      case Ok(v, j) => Ok(Member(name, v), j)
  }

  /** The loop of parse_object_value, with the members read so far. */
  function ParseMembers(s: CString, i: nat, n: nat, done: seq<Member>): (r: Parsed<seq<Member>>)
    requires i < |s|
    ensures r.Ok? ==> i < r.end < |s|
    decreases |s| - i, 4
  {
    if s[i] == 0 then Fail
    else
      match ParseMember(s, i, n)
      case Fail => Fail
      case Ok(m, j) =>
        if HasName(done, m.name) then Fail else AfterMember(s, SkipWs(s, j), n, done + [m])
  }

  /** Behind a member: a comma and more members, or the end of the object. */
  function AfterMember(s: CString, k: nat, n: nat, ms: seq<Member>): (r: Parsed<seq<Member>>)
    requires k < |s|
    ensures r.Ok? ==> k < r.end < |s|
    decreases |s| - k, 0
  {
    if s[k] == COMMA then ParseMembers(s, SkipWs(s, k + 1), n, ms)
    else if s[k] == RBRACE then Ok(ms, k + 1)
    else Fail
  }

  /** json_parse_string: a byte order mark is skipped, the rest of the text ignored. */
  function Parse(s: CString): (r: Parsed<Value>) {
    if At(s, 0, [0xEF, 0xBB, 0xBF]) then
      assert s[..3] == [0xEF, 0xBB, 0xBF];
      ParseValue(s, 3, 0)
    else ParseValue(s, 0, 0)
  }
}
