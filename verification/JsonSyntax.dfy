/** The texts of sections 2 to 7 of RFC 8259 as concrete syntax trees: every tree has the
    text it derives and the value that text denotes, in the standard's own characters. The
    same trees, with other lexical rules, derive exactly the texts parson accepts. */
module JsonSyntax {
  import opened Bytes
  import opened JsonTree
  import opened JsonGrammar
  import Utf8

  /** Whose lexical rules: the standard's, the parser's, or what either of them allows. */
  datatype Dialect = Rfc8259 | Parson | Wide

  // ------------------------------------------------------- white space, section 2

  /** Beyond tab, line feed, carriage return and space, parson takes vertical tab and form
      feed. */
  predicate IsGap(t: seq<byte>, g: Dialect) {
    forall k :: 0 <= k < |t| ==> t[k] in {9, 10, 13, 32} || (!g.Rfc8259? && t[k] in {11, 12})
  }

  // ----------------------------------------------------------- strings, section 7

  datatype Hex = Hex(a: byte, b: byte, c: byte, d: byte)

  /** A character of a string: a byte as it is, a two-character escape, a "\u" escape on
      its own, or the two that make up a surrogate pair. */
  datatype Piece =
    | Plain(c: byte)
    | Escaped(c: byte)
    | Unit(hex: Hex)
    | Pair(lead: Hex, trail: Hex)

  /** HEXDIG, in either case. */
  function HexDig(c: byte): (v: Option<nat>)
    ensures v.Some? ==> v.value < 16
  {
    if '0' as int <= c <= '9' as int then Some(c - '0' as int)
    else if 'A' as int <= c <= 'F' as int then Some(10 + c - 'A' as int)
    else if 'a' as int <= c <= 'f' as int then Some(10 + c - 'a' as int)
    else None
  }

  predicate AllHex(h: Hex) {
    HexDig(h.a).Some? && HexDig(h.b).Some? && HexDig(h.c).Some? && HexDig(h.d).Some?
  }

  function UnitValue(h: Hex): (u: nat)
    ensures u < 0x1_0000
  {
    if AllHex(h) then
      HexDig(h.a).value * 0x1000 + HexDig(h.b).value * 0x100 + HexDig(h.c).value * 0x10 + HexDig(h.d).value
    else 0
  }

  /** The eight characters a backslash escapes, and the bytes they stand for. */
  function Escape(c: byte): Option<byte> {
    if c in {'\"' as int, '\\' as int, '/' as int} then Some(c)
    else if c == 'b' as int then Some(0x08)
    else if c == 't' as int then Some(0x09)
    else if c == 'n' as int then Some(0x0A)
    else if c == 'f' as int then Some(0x0C)
    else if c == 'r' as int then Some(0x0D)
    else None
  }

  /** RFC 8259 lets half a surrogate pair stand alone, parson does not. Neither asks for
      valid UTF-8 here: bytes from 0x80 on stand for themselves. */
  predicate PieceIn(p: Piece, g: Dialect) {
    match p
    case Plain(c) => c >= 0x20 && c != QUOTE && c != BACKSLASH
    case Escaped(c) => Escape(c).Some?
    case Unit(h) => AllHex(h) && (g.Parson? ==> !IsLead(UnitValue(h)) && !IsTrail(UnitValue(h)))
    case Pair(l, t) => AllHex(l) && AllHex(t) && IsLead(UnitValue(l)) && IsTrail(UnitValue(t))
  }

  /** Two escapes that are to be taken as one pair. */
  predicate SplitsPair(p: Piece, q: Piece) {
    p.Unit? && q.Unit? && IsLead(UnitValue(p.hex)) && IsTrail(UnitValue(q.hex))
  }

  predicate CharsIn(ps: seq<Piece>, g: Dialect) {
    ps == [] || (PieceIn(ps[0], g) && (|ps| > 1 ==> !SplitsPair(ps[0], ps[1])) && CharsIn(ps[1..], g))
  }

  function HexText(h: Hex): seq<byte> {
    [h.a, h.b, h.c, h.d]
  }

  function UnitText(h: Hex): seq<byte> {
    [BACKSLASH, 'u' as int] + HexText(h)
  }

  function PieceText(p: Piece): (t: seq<byte>)
    ensures |t| > 0
  {
    match p
    case Plain(c) => [c]
    case Escaped(c) => [BACKSLASH, c]
    case Unit(h) => UnitText(h)
    case Pair(l, t) => UnitText(l) + UnitText(t)
  }

  function CharsText(ps: seq<Piece>): seq<byte> {
    if ps == [] then [] else PieceText(ps[0]) + CharsText(ps[1..])
  }

  function QuotedText(ps: seq<Piece>): seq<byte> {
    [QUOTE] + CharsText(ps) + [QUOTE]
  }

  function PieceMeaning(p: Piece): seq<byte> {
    match p
    case Plain(c) => [c]
    case Escaped(c) => if Escape(c).Some? then [Escape(c).value] else []
    case Unit(h) => Utf8.Encode(UnitValue(h))
    case Pair(l, t) =>
      if IsLead(UnitValue(l)) && IsTrail(UnitValue(t)) then Utf8.Encode(PairCodePoint(UnitValue(l), UnitValue(t)))
      else []
  }

  function CharsMeaning(ps: seq<Piece>): seq<byte> {
    if ps == [] then [] else PieceMeaning(ps[0]) + CharsMeaning(ps[1..])
  }

  // ----------------------------------------------------------- numbers, section 6

  datatype Exponent = Exponent(mark: byte, sign: seq<byte>, digits: seq<byte>)

  datatype Numeral = Numeral(neg: bool, whole: seq<byte>, frac: Option<seq<byte>>, exp: Option<Exponent>)

  predicate IsExponent(x: Exponent) {
    && x.mark in {'e' as int, 'E' as int}
    && x.sign in {[], ['+' as int], [MINUS]}
    && x.digits != [] && AllDigits(x.digits)
  }

  /** A zero in front is the whole integer part, and only a fraction follows it. */
  predicate PlainZero(n: Numeral) {
    n.whole != [] && n.whole[0] == ZERO ==> |n.whole| == 1 && (n.exp.Some? ==> n.frac.Some?)
  }

  function FractionDigits(n: Numeral): seq<byte> {
    if n.frac.Some? then n.frac.value else []
  }

  function ExponentOf(x: Option<Exponent>): int
    requires x.Some? ==> AllDigits(x.value.digits)
  {
    match x
    case None => 0
    case Some(y) =>
      var v: int := DigitsValue(y.digits);
      if y.sign == [MINUS] then -v else v
  }

  /** Beyond RFC 8259, parson takes numerals without a digit behind the point, and, behind
      a minus sign, without one before it. It refuses an exponent right behind a zero, and
      values out of the range of a double. */
  predicate NumeralIn(n: Numeral, g: Dialect) {
    && AllDigits(n.whole)
    && (n.frac.Some? ==> AllDigits(n.frac.value))
    && (n.exp.Some? ==> IsExponent(n.exp.value))
    && (n.whole == [] ==> n.neg && n.frac.Some? && n.frac.value != [])
    && match g
       case Rfc8259 =>
         n.whole != [] && (n.whole[0] == ZERO ==> |n.whole| == 1) && (n.frac.Some? ==> n.frac.value != [])
       case Parson =>
         PlainZero(n) && DigitsErrno(n.whole, FractionDigits(n), ExponentOf(n.exp)) == NoError
       case Wide => true
  }

  function ExponentText(x: Option<Exponent>): seq<byte> {
    match x
    case None => []
    case Some(y) => [y.mark] + y.sign + y.digits
  }

  function FractionText(f: Option<seq<byte>>): seq<byte> {
    match f
    case None => []
    case Some(digits) => [DOT] + digits
  }

  function NumeralText(n: Numeral): seq<byte> {
    (if n.neg then [MINUS] else []) + n.whole + FractionText(n.frac) + ExponentText(n.exp)
  }

  /** An integer up to 2^53 is that number, everything else the double its text stands
      for. */
  function NumeralMeaning(n: Numeral): Value {
    if n.frac.None? && n.exp.None? && n.whole != [] && AllDigits(n.whole) && DigitsValue(n.whole) <= MAX_EXACT then
      Number(n.neg, DigitsValue(n.whole))
    else Real(NumeralText(n))
  }

  // -------------------------------------------------- values, sections 3 to 5 and 9

  datatype Syntax =
    | NullWord
    | BoolWord(b: bool)
    | NumberWord(numeral: Numeral)
    | StringWord(chars: seq<Piece>)
    | EmptyArray(gap: seq<byte>)
    | ArrayOf(items: Items)
    | EmptyObject(gap: seq<byte>)
    | ObjectOf(members: Members)

  /** A value with the white space around it. */
  datatype Entry = Entry(before: seq<byte>, value: Syntax, after: seq<byte>)

  datatype Key = Key(before: seq<byte>, name: seq<Piece>, after: seq<byte>)

  datatype Items =
    | LastItem(item: Entry)
    | MoreItems(item: Entry, rest: Items)

  datatype Members =
    | LastMember(key: Key, entry: Entry)
    | MoreMembers(key: Key, entry: Entry, rest: Members)

  predicate SyntaxIn(d: Syntax, g: Dialect) {
    match d
    case NullWord => true
    case BoolWord(_) => true
    case NumberWord(n) => NumeralIn(n, g)
    case StringWord(ps) => CharsIn(ps, g)
    case EmptyArray(gap) => IsGap(gap, g)
    case ArrayOf(items) => ItemsIn(items, g)
    case EmptyObject(gap) => IsGap(gap, g)
    case ObjectOf(members) => MembersIn(members, g)
  }

  predicate EntryIn(x: Entry, g: Dialect) {
    IsGap(x.before, g) && SyntaxIn(x.value, g) && IsGap(x.after, g)
  }

  predicate KeyIn(k: Key, g: Dialect) {
    IsGap(k.before, g) && CharsIn(k.name, g) && IsGap(k.after, g)
  }

  predicate ItemsIn(items: Items, g: Dialect) {
    EntryIn(items.item, g) && (items.MoreItems? ==> ItemsIn(items.rest, g))
  }

  predicate MembersIn(ms: Members, g: Dialect) {
    KeyIn(ms.key, g) && EntryIn(ms.entry, g) && (ms.MoreMembers? ==> MembersIn(ms.rest, g))
  }

  function SyntaxText(d: Syntax): seq<byte> {
    match d
    case NullWord => ['n' as int, 'u' as int, 'l' as int, 'l' as int]
    case BoolWord(b) =>
      if b then ['t' as int, 'r' as int, 'u' as int, 'e' as int]
      else ['f' as int, 'a' as int, 'l' as int, 's' as int, 'e' as int]
    case NumberWord(n) => NumeralText(n)
    case StringWord(ps) => QuotedText(ps)
    case EmptyArray(gap) => [LBRACKET] + gap + [RBRACKET]
    case ArrayOf(items) => [LBRACKET] + ItemsText(items) + [RBRACKET]
    case EmptyObject(gap) => [LBRACE] + gap + [RBRACE]
    case ObjectOf(members) => [LBRACE] + MembersText(members) + [RBRACE]
  }

  function EntryText(x: Entry): seq<byte> {
    x.before + SyntaxText(x.value) + x.after
  }

  function KeyText(k: Key): seq<byte> {
    k.before + QuotedText(k.name) + k.after
  }

  function ItemsText(items: Items): seq<byte> {
    EntryText(items.item) + if items.MoreItems? then [COMMA] + ItemsText(items.rest) else []
  }

  function MembersText(ms: Members): seq<byte> {
    KeyText(ms.key) + [COLON] + EntryText(ms.entry)
    + if ms.MoreMembers? then [COMMA] + MembersText(ms.rest) else []
  }

  function Meaning(d: Syntax): Value {
    match d
    case NullWord => Null
    case BoolWord(b) => Bool(b)
    case NumberWord(n) => NumeralMeaning(n)
    case StringWord(ps) => String(CharsMeaning(ps))
    case EmptyArray(_) => Array([])
    case ArrayOf(items) => Array(ItemsMeaning(items))
    case EmptyObject(_) => Object([])
    case ObjectOf(members) => Object(MembersMeaning(members))
  }

  function ItemsMeaning(items: Items): seq<Value> {
    [Meaning(items.item.value)] + if items.MoreItems? then ItemsMeaning(items.rest) else []
  }

  function MembersMeaning(ms: Members): seq<Member> {
    [Member(CharsMeaning(ms.key.name), Meaning(ms.entry.value))]
    + if ms.MoreMembers? then MembersMeaning(ms.rest) else []
  }

  /** What one member means. */
  function MemberMeaning(k: Key, x: Entry): Member {
    Member(CharsMeaning(k.name), Meaning(x.value))
  }

  // ------------------------------------------------------- both dialects are wide

  lemma {:induction false} CharsWiden(ps: seq<Piece>, g: Dialect)
    requires CharsIn(ps, g)
    ensures CharsIn(ps, Wide)
  {
    if ps != [] { CharsWiden(ps[1..], g); }
  }

  lemma {:induction false} Widen(d: Syntax, g: Dialect)
    requires SyntaxIn(d, g)
    ensures SyntaxIn(d, Wide)
  {
    match d
    case StringWord(ps) => CharsWiden(ps, g);
    case ArrayOf(items) => ItemsWiden(items, g);
    case ObjectOf(members) => MembersWiden(members, g);
    case _ =>
  }

  lemma {:induction false} ItemsWiden(items: Items, g: Dialect)
    requires ItemsIn(items, g)
    ensures ItemsIn(items, Wide)
  {
    Widen(items.item.value, g);
    if items.MoreItems? { ItemsWiden(items.rest, g); }
  }

  lemma {:induction false} MembersWiden(ms: Members, g: Dialect)
    requires MembersIn(ms, g)
    ensures MembersIn(ms, Wide)
  {
    CharsWiden(ms.key.name, g);
    Widen(ms.entry.value, g);
    if ms.MoreMembers? { MembersWiden(ms.rest, g); }
  }
}
