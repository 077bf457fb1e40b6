/** Strings and numerals of the syntax, read by the parser and derived from what it reads.
    Strings go character by character: the scan for the closing quote and the decoding
    pass over the same bytes, and half a surrogate pair is refused because nothing that
    may follow it completes it. Numerals go part by part: strtod stops behind the last
    part unless something there continues it, and is_decimal decides the dialect. */
module JsonSyntaxLexical {
  import opened Bytes
  import opened JsonGrammar
  import opened JsonStringProofs
  import opened JsonNumberProofs
  import opened JsonSyntax
  import Utf8

  // ---------------------------------------------------------------- strings

  lemma HexRead(s: CString, i: nat, h: Hex)
    requires At(s, i, HexText(h)) && AllHex(h) && i + 4 < |s|
    ensures Hex4(s, i) == Some(UnitValue(h))
    ensures forall k :: i <= k < i + 4 ==> s[k] != QUOTE && s[k] != BACKSLASH && s[k] != 0
  {
    AtByte(s, i, HexText(h), 0);
    AtByte(s, i, HexText(h), 1);
    AtByte(s, i, HexText(h), 2);
    AtByte(s, i, HexText(h), 3);
  }

  /** One "\u" escape, passed over on the way to the closing quote. */
  lemma UnitRead(s: CString, i: nat, h: Hex)
    requires At(s, i, UnitText(h)) && AllHex(h) && i + 6 < |s|
    ensures s[i] == BACKSLASH && s[i + 1] == 'u' as int && Hex4(s, i + 2) == Some(UnitValue(h))
    ensures CloseQuote(s, i) == CloseQuote(s, i + 6)
  {
    AtAppend(s, i, [BACKSLASH, 'u' as int], HexText(h));
    AtByte(s, i, [BACKSLASH, 'u' as int], 0);
    AtByte(s, i, [BACKSLASH, 'u' as int], 1);
    HexRead(s, i + 2, h);
    CloseQuoteSkips(s, i + 2, i + 6);
  }

  const UPPER_DIGITS: string := "0123456789ABCDEF"
  const LOWER_DIGITS: string := "0123456789abcdef"

  /** c is the hexadecimal digit d in either case. */
  predicate Writes(c: byte, d: nat) {
    d < 16 && c as char in {UPPER_DIGITS[d], LOWER_DIGITS[d]}
  }

  /** These characters are the hexadecimal digits, and no others are. */
  lemma HexDigits(c: byte, d: nat)
    ensures Writes(c, d) <==> HexValue(c) == d
    ensures HexDig(c) == if HexValue(c) >= 0 then Some(HexValue(c)) else None
  {
    if d < 16 {
      assert UPPER_DIGITS[d] == if d < 10 then '0' + d as char else 'A' + (d - 10) as char;
      assert LOWER_DIGITS[d] == if d < 10 then '0' + d as char else 'a' + (d - 10) as char;
    }
  }

  /** Four digits of either case are decoded to the character they write in base 16. */
  lemma FourDigitsRead(s: CString, i: nat, h: Hex, a: nat, b: nat, c: nat, d: nat)
    requires At(s, i, UnitText(h)) && i + 6 < |s|
    requires Writes(h.a, a) && Writes(h.b, b) && Writes(h.c, c) && Writes(h.d, d)
    requires Utf8.IsScalar(0x1000 * a + 0x100 * b + 0x10 * c + d)
    ensures s[i] != 0
    ensures StringChar(s, i) == Ok(Utf8.Encode(0x1000 * a + 0x100 * b + 0x10 * c + d), i + 6)
  {
    HexDigits(h.a, a);
    HexDigits(h.b, b);
    HexDigits(h.c, c);
    HexDigits(h.d, d);
    UnitRead(s, i, h);
  }

  lemma PairRead(s: CString, i: nat, l: Hex, t: Hex)
    requires At(s, i, UnitText(l) + UnitText(t)) && PieceIn(Pair(l, t), Wide) && i + 12 < |s|
    ensures s[i] == BACKSLASH && s[i + 1] == 'u' as int && Hex4(s, i + 2) == Some(UnitValue(l))
    ensures CloseQuote(s, i) == CloseQuote(s, i + 12)
    ensures StringChar(s, i) == Ok(PieceMeaning(Pair(l, t)), i + 12)
  {
    AtAppend(s, i, UnitText(l), UnitText(t));
    UnitRead(s, i, l);
    UnitRead(s, i + 6, t);
  }

  /** A whole character is passed over as a unit, and read if it is in parson's dialect. */
  lemma PieceRead(s: CString, i: nat, j: nat, p: Piece)
    requires Behind(s, i, PieceText(p)) == Some(j) && j < |s|
    ensures PieceIn(p, Wide) ==> s[i] != 0 && s[i] != QUOTE && CloseQuote(s, i) == CloseQuote(s, j)
    ensures PieceIn(p, Wide) && PieceIn(p, Parson) ==> StringChar(s, i) == Ok(PieceMeaning(p), j)
  {
    match p
    case Plain(c) =>
      AtByte(s, i, [c], 0);
    case Escaped(c) =>
      EscapedRead(s, i, j, c);
    case Unit(h) =>
      if AllHex(h) { UnitRead(s, i, h); }
    case Pair(l, t) =>
      if PieceIn(p, Wide) { PairRead(s, i, l, t); }
  }

  lemma EscapedRead(s: CString, i: nat, j: nat, c: byte)
    requires Behind(s, i, [BACKSLASH, c]) == Some(j) && j < |s|
    ensures s[i] == BACKSLASH && j == i + 2
    ensures Escape(c).Some? ==> CloseQuote(s, i) == CloseQuote(s, j) && StringChar(s, i) == Ok([Escape(c).value], j)
  {
    AtByte(s, i, [BACKSLASH, c], 0);
    AtByte(s, i, [BACKSLASH, c], 1);
  }

  /** The first character of a string's content at i, and the others at j. */
  lemma CharsSplit(s: seq<byte>, i: nat, end: nat, ps: seq<Piece>) returns (p: Piece, j: nat, rest: seq<Piece>)
    requires ps != [] && Behind(s, i, CharsText(ps)) == Some(end)
    ensures p == ps[0] && rest == ps[1..]
    ensures Behind(s, i, PieceText(p)) == Some(j) && Behind(s, j, CharsText(rest)) == Some(end) && i < j <= end
  {
    p, rest := ps[0], ps[1..];
    j := Unglued(s, i, PieceText(p), CharsText(rest), end);
  }

  /** Nothing that can follow half a pair completes it. */
  lemma NoTrailFollows(s: CString, i: nat, end: nat, p: Piece, ps: seq<Piece>)
    requires p.Unit? && IsLead(UnitValue(p.hex)) && (ps != [] ==> !SplitsPair(p, ps[0])) && CharsIn(ps, Wide)
    requires Behind(s, i, CharsText(ps)) == Some(end) && end < |s| && s[end] == QUOTE
    ensures s[i] == BACKSLASH && s[i + 1] == 'u' as int && Hex4(s, i + 2).Some? ==> !IsTrail(Hex4(s, i + 2).value)
  {
    if ps != [] {
      var q, j, _ := CharsSplit(s, i, end, ps);
      NoTrailHere(s, i, j, q);
    }
  }

  lemma NoTrailHere(s: CString, i: nat, j: nat, q: Piece)
    requires Behind(s, i, PieceText(q)) == Some(j) && j < |s|
    requires PieceIn(q, Wide) && (q.Unit? ==> !IsTrail(UnitValue(q.hex)))
    ensures s[i] == BACKSLASH && s[i + 1] == 'u' as int && Hex4(s, i + 2).Some? ==> !IsTrail(Hex4(s, i + 2).value)
  {
    match q
    case Plain(c) =>
      AtByte(s, i, [c], 0);
    case Escaped(c) =>
      AtByte(s, i, [BACKSLASH, c], 1);
    case Unit(h) =>
      UnitRead(s, i, h);
    case Pair(l, t) =>
      PairRead(s, i, l, t);
  }

  lemma HalfPair(s: CString, i: nat, u: nat)
    requires i + 6 < |s| && s[i] == BACKSLASH && s[i + 1] == 'u' as int && Hex4(s, i + 2) == Some(u)
    requires IsLead(u) || IsTrail(u)
    requires IsLead(u) && s[i + 6] == BACKSLASH && s[i + 7] == 'u' as int && Hex4(s, i + 8).Some?
             ==> !IsTrail(Hex4(s, i + 8).value)
    ensures StringChar(s, i).Fail?
  {
  }

  /** Half a pair that stands alone is refused. */
  lemma HalfPairRefused(s: CString, i: nat, j: nat, end: nat, p: Piece, ps: seq<Piece>)
    requires ps != [] ==> !SplitsPair(p, ps[0])
    requires Behind(s, i, PieceText(p)) == Some(j) && Behind(s, j, CharsText(ps)) == Some(end)
    requires end < |s| && s[end] == QUOTE
    ensures PieceIn(p, Wide) && !PieceIn(p, Parson) && CharsIn(ps, Wide) ==> s[i] != 0 && StringChar(s, i).Fail?
  {
    if PieceIn(p, Wide) && !PieceIn(p, Parson) && CharsIn(ps, Wide) {
      UnitRead(s, i, p.hex);
      if IsLead(UnitValue(p.hex)) { NoTrailFollows(s, j, end, p, ps); }
      HalfPair(s, i, UnitValue(p.hex));
    }
  }

  lemma UnescapeOnce(s: CString, i: nat, end: nat, done: seq<byte>)
    requires i < end < |s| && s[i] != 0
    ensures Unescape(s, i, end, done)
         == match StringChar(s, i)
            case Fail => None
            case Ok(t, j) => Unescape(s, j, end, done + t)
  {
  }

  /** One character of a string that ends at end. */
  lemma CharRead(s: CString, i: nat, j: nat, end: nat, ps: seq<Piece>, p: Piece, rest: seq<Piece>, done: seq<byte>)
    requires ps != [] && p == ps[0] && rest == ps[1..]
    requires Behind(s, i, PieceText(p)) == Some(j) && Behind(s, j, CharsText(rest)) == Some(end)
    requires i < j <= end < |s| && s[end] == QUOTE
    ensures CharsIn(ps, Wide) ==> CharsIn(rest, Wide) && CloseQuote(s, i) == CloseQuote(s, j)
    ensures var next := if PieceIn(p, Parson) then Unescape(s, j, end, done + PieceMeaning(p)) else None;
      CharsIn(ps, Wide) ==> Unescape(s, i, end, done) == next
  {
    PieceRead(s, i, j, p);
    if rest == [] || !SplitsPair(p, rest[0]) { HalfPairRefused(s, i, j, end, p, rest); }
    if s[i] != 0 { UnescapeOnce(s, i, end, done); }
  }

  lemma CharsInParson(ps: seq<Piece>)
    requires ps != []
    ensures CharsIn(ps, Wide) ==> (CharsIn(ps, Parson) <==> PieceIn(ps[0], Parson) && CharsIn(ps[1..], Parson))
  {
  }

  lemma {:induction false} CharsRead(s: CString, i: nat, end: nat, ps: seq<Piece>, done: seq<byte>)
    requires Behind(s, i, CharsText(ps)) == Some(end) && end < |s| && s[end] == QUOTE
    ensures CharsIn(ps, Wide) ==> CloseQuote(s, i) == Some(end)
    ensures var r := if CharsIn(ps, Parson) then Some(done + CharsMeaning(ps)) else None;
      CharsIn(ps, Wide) ==> Unescape(s, i, end, done) == r
    decreases |ps|
  {
    if ps == [] {
      assert done + CharsMeaning(ps) == done;
    } else {
      var p, j, rest := CharsSplit(s, i, end, ps);
      CharRead(s, i, j, end, ps, p, rest, done);
      CharsInParson(ps);
      CharsRead(s, j, end, rest, done + PieceMeaning(p));
      assert done + CharsMeaning(ps) == done + PieceMeaning(p) + CharsMeaning(rest);
    }
  }

  /** A quoted string is read exactly when no half of a surrogate pair stands alone in it. */
  lemma QuotedTextRead(s: CString, i: nat, ps: seq<Piece>)
    requires At(s, i, QuotedText(ps)) && CharsIn(ps, Wide)
    ensures i + |QuotedText(ps)| < |s| && s[i] == QUOTE
    ensures QuotedString(s, i)
         == if CharsIn(ps, Parson) then Ok(CharsMeaning(ps), i + |QuotedText(ps)|) else Fail
  {
    var end := QuotedParts(s, i, ps);
    CharsRead(s, i + 1, end, ps, []);
    QuotedOnce(s, i, end);
    assert [] + CharsMeaning(ps) == CharsMeaning(ps);
  }

  lemma QuotedParts(s: CString, i: nat, ps: seq<Piece>) returns (end: nat)
    requires At(s, i, QuotedText(ps))
    ensures Behind(s, i + 1, CharsText(ps)) == Some(end) && end + 1 == i + |QuotedText(ps)| < |s|
    ensures s[i] == QUOTE && s[end] == QUOTE
  {
    end := Unquoted(s, i, CharsText(ps));
  }

  lemma QuotedOnce(s: CString, i: nat, end: nat)
    requires i + 1 < |s| && s[i] == QUOTE && CloseQuote(s, i + 1) == Some(end)
    ensures end + 1 < |s|
    ensures QuotedString(s, i)
         == match Unescape(s, i + 1, end, [])
            case None => Fail
            case Some(t) => Ok(t, end + 1)
  {
  }

  // ---------------------------------------------------------------- numbers

  predicate HexTail(s: CString, e: nat)
    requires e < |s|
  {
    Lower(s[e]) == 'x' as int && (IsHex(s[e + 1]) || (s[e + 1] == DOT && IsHex(s[e + 2])))
  }

  /** What stands behind the numeral at e makes strtod read on. */
  predicate Continues(s: CString, e: nat, n: Numeral)
    requires e < |s|
  {
    || IsDigit(s[e])
    || (n.exp.None? && ExponentEnd(s, e) != e)
    || (n.exp.None? && n.frac.None? && s[e] == DOT)
    || (n.exp.None? && n.frac.None? && n.whole == [ZERO] && HexTail(s, e))
  }

  lemma DigitsRead(s: CString, i: nat, t: seq<byte>)
    requires At(s, i, t) && AllDigits(t) && i + |t| < |s| && !IsDigit(s[i + |t|])
    ensures DigitsEnd(s, i) == i + |t|
  {
    forall k | i <= k < i + |t| ensures IsDigit(s[k]) {
      AtByte(s, i, t, k - i);
      assert IsDigit(t[k - i]);
    }
    DigitsEndAt(s, i, i + |t|);
  }

  lemma ExponentLayout(s: CString, b: nat, x: Exponent) returns (k: nat)
    requires At(s, b, ExponentText(Some(x))) && IsExponent(x) && b + |ExponentText(Some(x))| < |s|
    ensures k == b + 1 + |x.sign| && At(s, k, x.digits) && s[b] == x.mark
    ensures k + |x.digits| == b + |ExponentText(Some(x))|
    ensures IsDigit(s[k]) && if x.sign == [] then k == b + 1 else s[b + 1] in {'+' as int, MINUS}
  {
    k := b + 1 + |x.sign|;
    AtAppend(s, b, [x.mark] + x.sign, x.digits);
    AtAppend(s, b, [x.mark], x.sign);
    AtByte(s, b, [x.mark], 0);
    AtByte(s, k, x.digits, 0);
    assert IsDigit(x.digits[0]);
    if x.sign != [] { AtByte(s, b + 1, x.sign, 0); }
  }

  lemma ExponentRead(s: CString, b: nat, e: nat, x: Option<Exponent>)
    requires At(s, b, ExponentText(x)) && e == b + |ExponentText(x)| < |s| && (x.Some? ==> IsExponent(x.value))
    requires !IsDigit(s[e]) && (x.None? ==> ExponentEnd(s, e) == e)
    ensures ExponentEnd(s, b) == e
    ensures x.Some? ==> Lower(s[b]) == 'e' as int
  {
    if x.Some? {
      var k := ExponentLayout(s, b, x.value);
      DigitsRead(s, k, x.value.digits);
    }
  }

  /** Where the parts of a numeral lie: the digits at k, the fraction at a, the exponent
      at b, all of it up to e. */
  lemma NumeralLayout(s: seq<byte>, i: nat, n: Numeral) returns (k: nat, a: nat, b: nat, e: nat)
    requires At(s, i, NumeralText(n))
    ensures k == (if n.neg then i + 1 else i) && (n.neg ==> s[i] == MINUS) && At(s, k, n.whole)
    ensures a == k + |n.whole| && At(s, a, FractionText(n.frac))
    ensures b == a + |FractionText(n.frac)| && At(s, b, ExponentText(n.exp))
    ensures e == b + |ExponentText(n.exp)| == i + |NumeralText(n)|
  {
    var sign := if n.neg then [MINUS] else [];
    k := i + |sign|;
    a := k + |n.whole|;
    b := a + |FractionText(n.frac)|;
    e := b + |ExponentText(n.exp)|;
    FourAt(s, i, sign, n.whole, FractionText(n.frac), ExponentText(n.exp));
    if n.neg { AtByte(s, i, [MINUS], 0); }
  }

  lemma FourAt(s: seq<byte>, i: nat, t: seq<byte>, u: seq<byte>, v: seq<byte>, w: seq<byte>)
    requires At(s, i, t + u + v + w)
    ensures At(s, i, t) && At(s, i + |t|, u) && At(s, i + |t| + |u|, v) && At(s, i + |t| + |u| + |v|, w)
  {
    AtAppend(s, i, t + u + v, w);
    AtAppend(s, i, t + u, v);
    AtAppend(s, i, t, u);
  }

  /** strtod's view of the fraction: b is where it ends. */
  lemma FractionRead(s: CString, a: nat, b: nat, f: Option<seq<byte>>)
    requires At(s, a, FractionText(f)) && b == a + |FractionText(f)| < |s| && !IsDigit(s[b])
    requires f.Some? ==> AllDigits(f.value)
    requires f.None? ==> s[a] != DOT
    ensures b == if s[a] == DOT then DigitsEnd(s, a + 1) else a
    ensures f.Some? ==> s[a] == DOT
  {
    if f.Some? {
      AtAppend(s, a, [DOT], f.value);
      AtByte(s, a, [DOT], 0);
      DigitsRead(s, a + 1, f.value);
    }
  }

  lemma DigitsStart(s: seq<byte>, k: nat, t: seq<byte>)
    requires At(s, k, t) && AllDigits(t)
    ensures t != [] ==> s[k] == t[0] && IsDigit(s[k])
    ensures |t| > 1 ==> IsDigit(s[k + 1])
  {
    if t != [] { AtByte(s, k, t, 0); assert IsDigit(t[0]); }
    if |t| > 1 { AtByte(s, k, t, 1); assert IsDigit(t[1]); }
  }

  /** The digits, fraction and exponent that strtod finds at k, given where they lie. */
  lemma MagnitudeRead(s: CString, k: nat, a: nat, b: nat, e: nat, n: Numeral)
    requires At(s, k, n.whole) && a == k + |n.whole| && At(s, a, FractionText(n.frac))
    requires b == a + |FractionText(n.frac)| && At(s, b, ExponentText(n.exp)) && e == b + |ExponentText(n.exp)| < |s|
    requires NumeralIn(n, Wide) && !Continues(s, e, n)
    ensures DigitsEnd(s, k) == a && ExponentEnd(s, b) == e
    ensures b == if s[a] == DOT then DigitsEnd(s, a + 1) else a
    ensures s[a] == DOT || Lower(s[a]) == 'e' as int || (a == e && n.frac.None? && n.exp.None?)
  {
    ExponentRead(s, b, e, n.exp);
    FractionRead(s, a, b, n.frac);
    DigitsRead(s, k, n.whole);
  }

  lemma NotHexadecimal(s: CString, k: nat, a: nat, e: nat, n: Numeral)
    requires At(s, k, n.whole) && AllDigits(n.whole) && a == k + |n.whole| && e < |s| && a < |s|
    requires n.whole != [] || s[k] == DOT
    requires s[a] == DOT || Lower(s[a]) == 'e' as int || (a == e && n.frac.None? && n.exp.None?)
    requires !Continues(s, e, n)
    ensures !SpecialAhead(s, k) && !HexAhead(s, k)
  {
    DigitsStart(s, k, n.whole);
    if HexAhead(s, k) { assert n.whole == [ZERO]; assert HexTail(s, k + 1); assert false; }
  }

  lemma FractionStart(s: seq<byte>, a: nat, f: seq<byte>)
    requires At(s, a, FractionText(Some(f)))
    ensures s[a] == DOT
  {
    AtByte(s, a, FractionText(Some(f)), 0);
  }

  lemma MagnitudeConverts(s: CString, k: nat, a: nat, b: nat, e: nat, n: Numeral)
    requires At(s, k, n.whole) && a == k + |n.whole| && At(s, a, FractionText(n.frac))
    requires b == a + |FractionText(n.frac)| && At(s, b, ExponentText(n.exp)) && e == b + |ExponentText(n.exp)| < |s|
    requires NumeralIn(n, Wide) && !Continues(s, e, n)
    ensures StrtodMagnitude(s, k) == Decimals(e)
    ensures n.neg || IsDigit(s[k])
  {
    DigitsStart(s, k, n.whole);
    if n.whole == [] { FractionStart(s, a, n.frac.value); }
    MagnitudeRead(s, k, a, b, e, n);
    NotHexadecimal(s, k, a, e, n);
  }

  /** A numeral is converted as a whole when nothing behind it continues it. */
  lemma NumeralConverts(s: CString, i: nat, n: Numeral)
    requires At(s, i, NumeralText(n)) && i + |NumeralText(n)| < |s| && NumeralIn(n, Wide)
    requires !Continues(s, i + |NumeralText(n)|, n)
    ensures Strtod(s, i) == Decimals(i + |NumeralText(n)|)
    ensures s[i] == MINUS || IsDigit(s[i])
  {
    var k, a, b, e := NumeralLayout(s, i, n);
    MagnitudeConverts(s, k, a, b, e, n);
  }

  lemma RangeOfParts(s: CString, k: nat, a: nat, b: nat, whole: seq<byte>, frac: seq<byte>, exp: int)
    requires k < |s| && a == DigitsEnd(s, k) && b == (if s[a] == DOT then DigitsEnd(s, a + 1) else a)
    requires Digits(s, k) == whole && frac == (if s[a] == DOT then Digits(s, a + 1) else [])
    requires ExponentValue(s, b) == exp
    ensures AllDigits(whole) && AllDigits(frac) && (MagnitudeErrno(s, k) == DigitsErrno(whole, frac, exp))
  {
  }

  lemma DigitsAre(s: CString, k: nat, t: seq<byte>)
    requires At(s, k, t) && k + |t| < |s| && DigitsEnd(s, k) == k + |t|
    ensures Digits(s, k) == t
  {
  }

  /** The digits and the exponent strtod works with are those of the numeral. */
  lemma MagnitudeRange(s: CString, k: nat, a: nat, b: nat, e: nat, n: Numeral)
    requires At(s, k, n.whole) && a == k + |n.whole| && At(s, a, FractionText(n.frac))
    requires b == a + |FractionText(n.frac)| && At(s, b, ExponentText(n.exp)) && e == b + |ExponentText(n.exp)| < |s|
    requires NumeralIn(n, Wide) && !Continues(s, e, n)
    ensures MagnitudeErrno(s, k) == DigitsErrno(n.whole, FractionDigits(n), ExponentOf(n.exp))
  {
    MagnitudeRead(s, k, a, b, e, n);
    DigitsAre(s, k, n.whole);
    FractionOnly(s, a, b, n.frac, n.exp);
    ExponentOnly(s, b, e, n.exp);
    RangeOfParts(s, k, a, b, n.whole, FractionDigits(n), ExponentOf(n.exp));
  }

  lemma FractionOnly(s: CString, a: nat, b: nat, f: Option<seq<byte>>, x: Option<Exponent>)
    requires At(s, a, FractionText(f)) && b == a + |FractionText(f)| < |s|
    requires b == if s[a] == DOT then DigitsEnd(s, a + 1) else a
    requires f.None? ==> b == a
    ensures f.Some? ==> s[a] == DOT && Digits(s, a + 1) == f.value
    ensures f.None? ==> s[a] != DOT
  {
    if f.Some? {
      AtAppend(s, a, [DOT], f.value);
      AtByte(s, a, [DOT], 0);
    }
  }

  lemma ExponentOnly(s: CString, b: nat, e: nat, x: Option<Exponent>)
    requires At(s, b, ExponentText(x)) && e == b + |ExponentText(x)| < |s| && ExponentEnd(s, b) == e
    requires x.Some? ==> IsExponent(x.value)
    ensures ExponentValue(s, b) == ExponentOf(x)
  {
    if x.Some? {
      var k := ExponentLayout(s, b, x.value);
      SignRead(s, b, x.value);
      assert Digits(s, k) == x.value.digits;
    }
  }

  lemma SignRead(s: CString, b: nat, x: Exponent)
    requires At(s, b, ExponentText(Some(x))) && IsExponent(x) && b + |ExponentText(Some(x))| < |s|
    ensures s[b + 1] == MINUS <==> x.sign == [MINUS]
  {
    AtAppend(s, b, [x.mark] + x.sign, x.digits);
    AtAppend(s, b, [x.mark], x.sign);
    AtByte(s, b + 1 + |x.sign|, x.digits, 0);
    assert IsDigit(x.digits[0]);
    if x.sign != [] { AtByte(s, b + 1, x.sign, 0); }
  }

  lemma NumeralRange(s: CString, i: nat, e: nat, n: Numeral)
    requires Behind(s, i, NumeralText(n)) == Some(e) && e < |s| && NumeralIn(n, Wide) && !Continues(s, e, n)
    ensures StrtodErrno(s, i) == DigitsErrno(n.whole, FractionDigits(n), ExponentOf(n.exp))
  {
    var k, a, b, e' := NumeralLayout(s, i, n);
    MagnitudeConverts(s, k, a, b, e', n);
    MagnitudeRange(s, k, a, b, e', n);
  }

  predicate WithoutX(t: seq<byte>) {
    forall k :: 0 <= k < |t| ==> Lower(t[k]) != 'x' as int
  }

  lemma DigitsWithoutX(t: seq<byte>)
    requires AllDigits(t)
    ensures WithoutX(t)
  {
    forall k | 0 <= k < |t| ensures Lower(t[k]) != 'x' as int { assert IsDigit(t[k]); }
  }

  lemma ConcatWithoutX(a: seq<byte>, b: seq<byte>)
    requires WithoutX(a) && WithoutX(b)
    ensures WithoutX(a + b)
  {
  }

  lemma NumeralWithoutX(n: Numeral)
    requires NumeralIn(n, Wide)
    ensures WithoutX(NumeralText(n))
  {
    var sign := if n.neg then [MINUS] else [];
    DigitsWithoutX(n.whole);
    if n.frac.Some? { DigitsWithoutX(n.frac.value); }
    if n.exp.Some? {
      DigitsWithoutX(n.exp.value.digits);
      ConcatWithoutX([n.exp.value.mark] + n.exp.value.sign, n.exp.value.digits);
    }
    ConcatWithoutX(sign, n.whole);
    ConcatWithoutX(sign + n.whole, FractionText(n.frac));
    ConcatWithoutX(sign + n.whole + FractionText(n.frac), ExponentText(n.exp));
  }

  /** The numeral without its sign. */
  function MagnitudeText(n: Numeral): seq<byte> {
    n.whole + FractionText(n.frac) + ExponentText(n.exp)
  }

  lemma MagnitudeStart(n: Numeral)
    requires NumeralIn(n, Wide)
    ensures var t := MagnitudeText(n);
            |t| > 0 && t[0] != MINUS && (|t| > 1 && t[0] == ZERO && t[1] != DOT
                        <==> n.whole != [] && n.whole[0] == ZERO
                             && (|n.whole| > 1 || (n.exp.Some? && n.frac.None?)))
  {
    var t := MagnitudeText(n);
    if n.whole == [] {
      assert t[0] == DOT;
    } else {
      assert t[0] == n.whole[0] && IsDigit(n.whole[0]);
      if |n.whole| > 1 {
        assert t[1] == n.whole[1] && IsDigit(n.whole[1]);
      } else if n.frac.Some? {
        assert t[1] == DOT;
      } else if n.exp.Some? {
        assert t[1] == n.exp.value.mark;
      }
    }
  }

  lemma SignSplits(n: Numeral)
    ensures NumeralText(n) == (if n.neg then [MINUS] else []) + MagnitudeText(n)
  {
  }

  /** is_decimal refuses exactly the numerals with something but a fraction behind a zero
      in front. */
  lemma DecimalIsPlain(n: Numeral)
    requires NumeralIn(n, Wide)
    ensures IsDecimal(NumeralText(n)) <==> PlainZero(n)
  {
    NumeralWithoutX(n);
    MagnitudeStart(n);
    SignSplits(n);
    DecimalBehindSign(n.neg, MagnitudeText(n), NumeralText(n));
  }

  lemma DecimalBehindSign(neg: bool, m: seq<byte>, t: seq<byte>)
    requires t == (if neg then [MINUS] else []) + m && |m| > 0 && m[0] != MINUS
    ensures WithoutX(t) ==> (IsDecimal(t) <==> !(|m| > 1 && m[0] == ZERO && m[1] != DOT))
  {
    if neg {
      assert t[0] == MINUS && t[1] == m[0] && (|m| > 1 ==> t[2] == m[1]);
    } else {
      assert t == m;
    }
  }

  lemma NumeralLong(n: Numeral)
    requires NumeralIn(n, Wide)
    ensures |NumeralText(n)| > 0
  {
    SignSplits(n);
    MagnitudeStart(n);
  }

  lemma NumberParsed(s: CString, i: nat, e: nat, t: seq<byte>)
    requires i < e < |s| && Strtod(s, i) == Decimals(e) && s[i..e] == t
    ensures ParseNumber(s, i) == if StrtodErrno(s, i) == NoError && IsDecimal(t) then Ok(NumberOf(t), e) else Fail
  {
  }

  /** A numeral nothing continues is read exactly when it is in parson's dialect. */
  lemma NumeralRead(s: CString, i: nat, n: Numeral)
    requires At(s, i, NumeralText(n)) && i + |NumeralText(n)| < |s| && NumeralIn(n, Wide)
    requires !Continues(s, i + |NumeralText(n)|, n)
    ensures s[i] == MINUS || IsDigit(s[i])
    ensures ParseNumber(s, i)
         == if NumeralIn(n, Parson) then Ok(NumeralMeaning(n), i + |NumeralText(n)|) else Fail
  {
    var e := i + |NumeralText(n)|;
    NumeralConverts(s, i, n);
    NumeralRange(s, i, e, n);
    DecimalIsPlain(n);
    NumeralLong(n);
    NumberParsed(s, i, e, NumeralText(n));
    NumberOfNumeral(n);
  }

  lemma NotAllDigits(t: seq<byte>, k: nat)
    requires k < |t| && !IsDigit(t[k])
    ensures !AllDigits(t)
  {
  }

  /** The token of an integer is read as that integer; the token of a numeral with a
      fraction or an exponent is kept. */
  lemma NumberOfNumeral(n: Numeral)
    requires NumeralIn(n, Wide)
    ensures NumberOf(NumeralText(n)) == NumeralMeaning(n)
  {
    var m := MagnitudeText(n);
    SignSplits(n);
    MagnitudeStart(n);
    assert NumeralText(n)[0] == if n.neg then MINUS else m[0];
    if n.neg { assert NumeralText(n)[1..] == m; } else { assert NumeralText(n) == m; }
    if n.frac.Some? {
      assert m[|n.whole|] == DOT;
      NotAllDigits(m, |n.whole|);
    } else if n.exp.Some? {
      assert m[|n.whole|] == n.exp.value.mark;
      NotAllDigits(m, |n.whole|);
    } else {
      assert m == n.whole;
    }
  }

  /** Behind a minus sign, inf and nan are refused in any case, as strtod takes them for
      numbers that JSON does not have. */
  lemma SpecialRefused(s: CString, i: nat)
    requires i + 3 < |s| && s[i] == MINUS
    requires || (s[i + 1] as char in "iI" && s[i + 2] as char in "nN" && s[i + 3] as char in "fF")
             || (s[i + 1] as char in "nN" && s[i + 2] as char in "aA" && s[i + 3] as char in "nN")
    ensures ParseNumber(s, i).Fail?
  {
  }

  /** So are hexadecimal numbers, which it takes as well. */
  lemma HexadecimalRefused(s: CString, i: nat, d: nat)
    requires i + 2 < |s| && s[i] == ZERO && s[i + 1] as char in "xX" && Writes(s[i + 2], d)
    ensures ParseNumber(s, i).Fail?
  {
    HexDigits(s[i + 2], d);
  }

  // ------------------------------------------------- from what was read to a numeral

  lemma SliceDigits(s: CString, k: nat, a: nat)
    requires k <= a < |s| && DigitsEnd(s, k) == a
    ensures AllDigits(s[k..a]) && !IsDigit(s[a])
  {
    forall j | 0 <= j < a - k ensures IsDigit(s[k..a][j]) { assert s[k..a][j] == s[k + j]; }
  }

  lemma FractionDerived(s: CString, a: nat, b: nat) returns (f: Option<seq<byte>>)
    requires a < |s| && b == (if s[a] == DOT then DigitsEnd(s, a + 1) else a) && !IsDigit(s[a])
    ensures a <= b < |s| && s[a..b] == FractionText(f) && (f.Some? ==> AllDigits(f.value)) && !IsDigit(s[b])
    ensures f.Some? <==> s[a] == DOT
    ensures f.Some? ==> f.value == s[a + 1..b]
  {
    if s[a] == DOT {
      SliceDigits(s, a + 1, b);
      f := Some(s[a + 1..b]);
      assert s[a..b] == [DOT] + s[a + 1..b];
    } else {
      f := None;
      assert s[a..b] == [];
    }
  }

  lemma ExponentDerived(s: CString, b: nat, e: nat) returns (x: Option<Exponent>)
    requires b < |s| && ExponentEnd(s, b) == e && !IsDigit(s[b])
    ensures b <= e < |s| && s[b..e] == ExponentText(x) && (x.Some? ==> IsExponent(x.value)) && !IsDigit(s[e])
    ensures x.None? ==> b == e
  {
    if e == b {
      x := None;
      assert s[b..e] == [];
    } else {
      var k := if s[b + 1] == '+' as int || s[b + 1] == MINUS then b + 2 else b + 1;
      SliceDigits(s, k, e);
      assert s[k] == s[k..e][0];
      x := Some(Exponent(s[b], s[b + 1..k], s[k..e]));
      ExponentPieces(s, b, k, e);
    }
  }

  lemma ExponentPieces(s: seq<byte>, b: nat, k: nat, e: nat)
    requires b < k <= e <= |s|
    ensures s[b..e] == [s[b]] + s[b + 1..k] + s[k..e]
    ensures k == b + 1 ==> s[b + 1..k] == []
    ensures k == b + 2 ==> s[b + 1..k] == [s[b + 1]]
  {
  }

  lemma Joined(s: seq<byte>, i: nat, j: nat, k: nat)
    requires i <= j <= k <= |s|
    ensures s[i..k] == s[i..j] + s[j..k]
  {
  }

  lemma NothingContinues(s: CString, k: nat, a: nat, b: nat, e: nat, n: Numeral)
    requires k <= a <= b <= e < |s| && n.whole == s[k..a] && s[a..b] == FractionText(n.frac) && ExponentEnd(s, b) == e
    requires (n.frac.Some? <==> s[a] == DOT) && (n.exp.None? ==> b == e) && !IsDigit(s[e])
    requires !HexAhead(s, k)
    ensures !Continues(s, e, n)
  {
  }

  /** The digits, fraction and exponent between k and e. */
  lemma MagnitudeDerived(s: CString, k: nat, e: nat, neg: bool) returns (n: Numeral)
    requires k < |s| && StrtodMagnitude(s, k) == Decimals(e) && (neg || IsDigit(s[k]))
    ensures k < e < |s| && n.neg == neg && s[k..e] == MagnitudeText(n)
    ensures NumeralIn(n, Wide) && !Continues(s, e, n)
  {
    var a := DigitsEnd(s, k);
    var b := if s[a] == DOT then DigitsEnd(s, a + 1) else a;
    SliceDigits(s, k, a);
    var f := FractionDerived(s, a, b);
    var x := ExponentDerived(s, b, e);
    n := Numeral(neg, s[k..a], f, x);
    Joined(s, k, a, b);
    Joined(s, k, b, e);
    NothingContinues(s, k, a, b, e, n);
  }

  /** Where strtod stops, a numeral ends that nothing continues. */
  lemma NumeralDerived(s: CString, i: nat, e: nat) returns (n: Numeral)
    requires i < |s| && Strtod(s, i) == Decimals(e) && (s[i] == MINUS || IsDigit(s[i]))
    ensures i < e < |s| && s[i..e] == NumeralText(n) && NumeralIn(n, Wide) && !Continues(s, e, n)
    ensures Behind(s, i, NumeralText(n)) == Some(e)
  {
    n := MagnitudeDerived(s, if s[i] == MINUS then i + 1 else i, e, s[i] == MINUS);
    SignDerived(s, i, e, n);
  }

  lemma SignDerived(s: seq<byte>, i: nat, e: nat, n: Numeral)
    requires i < e <= |s| && (if n.neg then s[i] == MINUS && s[i + 1..e] == MagnitudeText(n)
                              else s[i..e] == MagnitudeText(n))
    ensures s[i..e] == NumeralText(n) && Behind(s, i, NumeralText(n)) == Some(e)
  {
    SignSplits(n);
    if n.neg { assert s[i..e] == [MINUS] + s[i + 1..e]; }
    Sliced(s, i, e);
  }

  // -------------------------------------------------- from what was read to a string

  lemma UnitDerived(s: CString, i: nat) returns (h: Hex)
    requires i + 1 < |s| && s[i] == BACKSLASH && s[i + 1] == 'u' as int && Hex4(s, i + 2).Some?
    ensures i + 6 < |s| && Behind(s, i, UnitText(h)) == Some(i + 6) && AllHex(h) && UnitValue(h) == Hex4(s, i + 2).value
  {
    h := Hex(s[i + 2], s[i + 3], s[i + 4], s[i + 5]);
  }

  lemma PieceDerived(s: CString, i: nat) returns (p: Piece)
    requires i < |s| && s[i] != 0 && s[i] != QUOTE && StringChar(s, i).Ok?
    ensures Behind(s, i, PieceText(p)) == Some(StringChar(s, i).end) && PieceIn(p, Parson)
    ensures PieceMeaning(p) == StringChar(s, i).value
  {
    if s[i] != BACKSLASH {
      p := Plain(s[i]);
    } else if s[i + 1] != 'u' as int {
      p := Escaped(s[i + 1]);
    } else {
      var h := UnitDerived(s, i);
      if IsLead(UnitValue(h)) {
        p := PairDerived(s, i, h);
      } else {
        p := Unit(h);
      }
    }
  }

  lemma PairDerived(s: CString, i: nat, h: Hex) returns (p: Piece)
    requires i < |s| && s[i] == BACKSLASH && s[i + 1] == 'u' as int && StringChar(s, i).Ok?
    requires Behind(s, i, UnitText(h)) == Some(i + 6) && AllHex(h) && Hex4(s, i + 2) == Some(UnitValue(h))
    requires IsLead(UnitValue(h))
    ensures Behind(s, i, PieceText(p)) == Some(StringChar(s, i).end) && PieceIn(p, Parson)
    ensures PieceMeaning(p) == StringChar(s, i).value
  {
    var t := UnitDerived(s, i + 6);
    p := Pair(h, t);
    Glued(s, i, UnitText(h), i + 6, UnitText(t), i + 12);
  }

  lemma PiecePrepended(p: Piece, ps: seq<Piece>, g: Dialect)
    ensures PieceIn(p, g) && CharsIn(ps, g) && (p.Unit? ==> !IsLead(UnitValue(p.hex))) ==> CharsIn([p] + ps, g)
    ensures CharsText([p] + ps) == PieceText(p) + CharsText(ps)
    ensures CharsMeaning([p] + ps) == PieceMeaning(p) + CharsMeaning(ps)
  {
    assert ([p] + ps)[1..] == ps;
  }

  /** One character that was read, on the way to the closing quote at end. */
  lemma CharDerived(s: CString, i: nat, end: nat, done: seq<byte>) returns (p: Piece, j: nat)
    requires i < end < |s| && CloseQuote(s, i) == Some(end) && Unescape(s, i, end, done).Some?
    ensures PieceIn(p, Parson) && Behind(s, i, PieceText(p)) == Some(j) && i < j <= end
    ensures CloseQuote(s, j) == Some(end) && Unescape(s, i, end, done) == Unescape(s, j, end, done + PieceMeaning(p))
  {
    p := PieceDerived(s, i);
    j := StringChar(s, i).end;
    StringCharInside(s, i, end);
    UnescapeOnce(s, i, end, done);
  }

  lemma Regrouped(a: seq<byte>, b: seq<byte>, c: seq<byte>)
    ensures a + (b + c) == a + b + c
  {
  }

  lemma CharsGlued(s: seq<byte>, i: nat, p: Piece, j: nat, rest: seq<Piece>, end: nat, done: seq<byte>)
    returns (ps: seq<Piece>)
    requires PieceIn(p, Parson) && Behind(s, i, PieceText(p)) == Some(j)
    requires CharsIn(rest, Parson) && Behind(s, j, CharsText(rest)) == Some(end)
    ensures CharsIn(ps, Parson) && Behind(s, i, CharsText(ps)) == Some(end)
    ensures done + CharsMeaning(ps) == done + PieceMeaning(p) + CharsMeaning(rest)
  {
    ps := [p] + rest;
    PiecePrepended(p, rest, Parson);
    Glued(s, i, PieceText(p), j, CharsText(rest), end);
    Regrouped(done, PieceMeaning(p), CharsMeaning(rest));
  }

  lemma {:induction false} CharsDerived(s: CString, i: nat, end: nat, done: seq<byte>) returns (ps: seq<Piece>)
    requires i <= end < |s| && CloseQuote(s, i) == Some(end) && Unescape(s, i, end, done).Some?
    ensures Behind(s, i, CharsText(ps)) == Some(end) && CharsIn(ps, Parson)
    ensures Unescape(s, i, end, done) == Some(done + CharsMeaning(ps))
    decreases end - i
  {
    if i == end {
      ps := [];
      assert done + CharsMeaning(ps) == done;
    } else {
      var p, j := CharDerived(s, i, end, done);
      var rest := CharsDerived(s, j, end, done + PieceMeaning(p));
      ps := CharsGlued(s, i, p, j, rest, end, done);
    }
  }

  /** What get_quoted_string accepts derives from the syntax. */
  lemma QuotedDerived(s: CString, i: nat) returns (ps: seq<Piece>)
    requires i < |s| && QuotedString(s, i).Ok?
    ensures Behind(s, i, QuotedText(ps)) == Some(QuotedString(s, i).end) && CharsIn(ps, Parson)
    ensures QuotedString(s, i).value == CharsMeaning(ps)
  {
    var q := CloseQuote(s, i + 1).value;
    ps := CharsDerived(s, i + 1, q, []);
    assert [] + CharsMeaning(ps) == CharsMeaning(ps);
    Bracketing(s, i, QUOTE, CharsText(ps), q, QUOTE);
  }
}
