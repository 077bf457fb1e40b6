/** receive_from_server: a response gathered from reads of any size. */
module Receive {
  import opened Bytes

  /** What one successful read returns. */
  type Chunk = c: seq<byte> | 0 < |c| <= 4096 witness [0]

  /** CR LF CR LF. */
  const TERMINATOR: seq<byte> := [13, 10, 13, 10]
  /** Content-Length, a colon and a space. */
  const FIELD: seq<byte> := [67, 111, 110, 116, 101, 110, 116, 45, 76, 101, 110, 103, 116, 104, 58, 32]

  function Lowered(t: seq<byte>): (l: seq<byte>)
    ensures |l| == |t| && forall k :: 0 <= k < |t| ==> l[k] == Lower(t[k])
  {
    seq(|t|, k requires 0 <= k < |t| => Lower(t[k]))
  }

  function FindField(t: seq<byte>): Option<nat> {
    Find(Lowered(t), 0, Lowered(FIELD))
  }

  // ------------------------------------------------------------------- C integers

  const TWO31 := 0x8000_0000
  const TWO63 := 0x8000_0000_0000_0000
  const TWO64 := 0x1_0000_0000_0000_0000

  /** Conversion to int: modulo 2^32. */
  function AsInt(x: int): (r: int)
    ensures -TWO31 <= r < TWO31 && (-TWO31 <= x < TWO31 ==> r == x)
    ensures (x - r) % 0x1_0000_0000 == 0
  {
    (x + TWO31) % 0x1_0000_0000 - TWO31
  }

  function Blanks(t: seq<byte>, i: nat): (r: nat)
    requires i <= |t|
    ensures i <= r <= |t| && (r < |t| ==> !IsSpace(t[r])) && forall k :: i <= k < r ==> IsSpace(t[k])
    decreases |t| - i
  {
    if i < |t| && IsSpace(t[i]) then Blanks(t, i + 1) else i
  }

  function Digits(t: seq<byte>, i: nat, acc: nat): nat
    requires i <= |t|
    decreases |t| - i
  {
    if i < |t| && IsDigit(t[i]) then Digits(t, i + 1, 10 * acc + (t[i] - ZERO)) else acc
  }

  /** strtol in base ten: blanks, a sign, digits, saturating at the ends of long. */
  function Strtol(t: seq<byte>, i: nat): int
    requires i <= |t|
  {
    var b := Blanks(t, i);
    var signed := b < |t| && t[b] in {MINUS, 43};
    var magnitude: int := Digits(t, if signed then b + 1 else b, 0);
    if signed && t[b] == MINUS then if magnitude > TWO63 then -TWO63 else -magnitude
    else if magnitude >= TWO63 then TWO63 - 1 else magnitude
  }

  // ---------------------------------------------------------------- what is returned

  /** Where the first loop stops: the reads used, the bytes so far, and the variables
      header_end and content_length. */
  datatype Head = Head(next: nat, have: seq<byte>, headerEnd: int, contentLength: int)

  function IndexOf(r: Option<nat>): int {
    if r.Some? then r.value else -1
  }

  /** The first loop. Behind the buffer stand bytes strtol may run into. */
  function ReadHead(chunks: seq<Chunk>, k: nat, have: seq<byte>, headerEnd: int, beyond: CString): (h: Head)
    requires k <= |chunks|
    ensures k <= h.next <= |chunks|
    decreases |chunks| - k
  {
    if k == |chunks| then Head(k, have, headerEnd, 0)
    else
      var now := have + chunks[k];
      var end := Find(now, 0, TERMINATOR);
      var field := FindField(now);
      if end == None then ReadHead(chunks, k + 1, now, -1, beyond)
      else if field == None then ReadHead(chunks, k + 1, now, end.value + 4, beyond)
      else Head(k + 1, now, end.value + 4, Announced(now + beyond, field.value))
  }

  /** content_length, read behind the field at position c. */
  function Announced(t: seq<byte>, c: nat): int
    requires c + |FIELD| <= |t|
  {
    AsInt(Strtol(t, c + |FIELD|))
  }

  /** The second loop. */
  function ReadBody(chunks: seq<Chunk>, k: nat, have: seq<byte>, total: int): seq<byte>
    requires k <= |chunks|
    decreases |chunks| - k
  {
    if |have| >= total || k == |chunks| then have else ReadBody(chunks, k + 1, have + chunks[k], total)
  }

  /** content_length + (size_t) header_end, in size_t. */
  function SizeT(contentLength: int, headerEnd: int): (r: nat)
    ensures r < TWO64 && (contentLength + headerEnd - r) % TWO64 == 0
  {
    (contentLength + headerEnd) % TWO64
  }

  function Total(h: Head): nat {
    SizeT(h.contentLength, h.headerEnd)
  }

  function Response(chunks: seq<Chunk>, beyond: CString): seq<byte> {
    var h := ReadHead(chunks, 0, [], 0, beyond);
    ReadBody(chunks, h.next, h.have, Total(h)) + [0]
  }

  // ---------------------------------------------------------- however it is cut up

  function Joined(chunks: seq<seq<byte>>): seq<byte> {
    if chunks == [] then [] else chunks[0] + Joined(chunks[1..])
  }

  lemma JoinedNext(chunks: seq<Chunk>, k: nat, have: seq<byte>, s: seq<byte>)
    requires k < |chunks| && s == have + Joined(chunks[k..])
    ensures s == (have + chunks[k]) + Joined(chunks[k + 1..])
  {
    assert chunks[k..][1..] == chunks[k + 1..];
  }

  lemma JoinedEnd(chunks: seq<Chunk>, have: seq<byte>, s: seq<byte>)
    requires s == have + Joined(chunks[|chunks|..])
    ensures s == have
  {
    assert chunks[|chunks|..] == [];
  }

  lemma SamePosition(t: seq<byte>, m: nat, i: nat, pat: seq<byte>)
    requires m <= |t| && i + |pat| <= m
    ensures At(t[..m], i, pat) <==> At(t, i, pat)
  {
    assert t[..m][i..i + |pat|] == t[i..i + |pat|];
  }

  /** The first occurrence stays where it is when more bytes come in. */
  lemma {:induction false} FindIsStable(t: seq<byte>, m: nat, i: nat, pat: seq<byte>)
    requires m <= |t|
    ensures var whole := Find(t, i, pat);
      Find(t[..m], i, pat) == if whole.Some? && whole.value + |pat| <= m then whole else None
    decreases |t| - i
  {
    if i + |pat| <= m {
      SamePosition(t, m, i, pat);
    }
    if i <= m && !At(t[..m], i, pat) {
      if i + |pat| <= m {
        FindIsStable(t, m, i + 1, pat);
      } else {
        FindIsFirst(t[..m], i, pat);
        FindIsFirst(t, i, pat);
      }
    }
  }

  lemma FieldIsStable(t: seq<byte>, m: nat)
    requires m <= |t|
    ensures var whole := FindField(t);
      FindField(t[..m]) == if whole.Some? && whole.value + |FIELD| <= m then whole else None
  {
    assert Lowered(t[..m]) == Lowered(t)[..m];
    FindIsStable(Lowered(t), m, 0, Lowered(FIELD));
  }

  /** Whatever the cut, the result is the stream up to some point, and a NUL. */
  lemma {:induction false} HeadIsPrefix(chunks: seq<Chunk>, k: nat, have: seq<byte>, headerEnd: int, beyond: CString,
                                        s: seq<byte>)
    requires k <= |chunks| && s == have + Joined(chunks[k..])
    ensures var h := ReadHead(chunks, k, have, headerEnd, beyond); s == h.have + Joined(chunks[h.next..])
    decreases |chunks| - k
  {
    if k < |chunks| {
      JoinedNext(chunks, k, have, s);
      var now := have + chunks[k];
      var end := Find(now, 0, TERMINATOR);
      if end == None {
        HeadIsPrefix(chunks, k + 1, now, -1, beyond, s);
      } else if FindField(now) == None {
        HeadIsPrefix(chunks, k + 1, now, end.value + 4, beyond, s);
      }
    }
  }

  lemma {:induction false} BodyIsPrefix(chunks: seq<Chunk>, k: nat, have: seq<byte>, total: int, s: seq<byte>)
    requires k <= |chunks| && s == have + Joined(chunks[k..])
    ensures var r := ReadBody(chunks, k, have, total);
      |have| <= |r| <= |s| && r == s[..|r|] && (|r| == |s| || |r| >= total)
    decreases |chunks| - k
  {
    if |have| < total && k < |chunks| {
      JoinedNext(chunks, k, have, s);
      BodyIsPrefix(chunks, k + 1, have + chunks[k], total, s);
    } else if k == |chunks| {
      assert chunks[k..] == [];
    }
  }

  lemma ResponseIsPrefix(chunks: seq<Chunk>, beyond: CString)
    ensures var s := Joined(chunks); var r := Response(chunks, beyond);
      1 <= |r| <= |s| + 1 && r == s[..|r| - 1] + [0]
    ensures var s := Joined(chunks); var r := Response(chunks, beyond);
      |r| - 1 == |s| || |r| - 1 >= Total(ReadHead(chunks, 0, [], 0, beyond))
  {
    assert chunks[0..] == chunks;
    HeadIsPrefix(chunks, 0, [], 0, beyond, Joined(chunks));
    var h := ReadHead(chunks, 0, [], 0, beyond);
    BodyIsPrefix(chunks, h.next, h.have, Total(h), Joined(chunks));
  }

  /** The header announces the length: the field comes first in it, and its number
      starts there. */
  ghost predicate Announces(s: seq<byte>) {
    var end := Find(s, 0, TERMINATOR);
    var field := FindField(s);
    && end.Some? && field.Some?
    && field.value + |FIELD| <= end.value
    && Blanks(s, field.value + |FIELD|) < end.value
  }

  /** Header and announced body. */
  function Whole(s: seq<byte>): nat
    requires Announces(s)
  {
    SizeT(Announced(s, FindField(s).value), Find(s, 0, TERMINATOR).value + 4)
  }

  lemma {:induction false} BlanksAgree(u: seq<byte>, v: seq<byte>, i: nat, end: nat)
    requires i <= end < |u| && end < |v| && u[..end + 1] == v[..end + 1]
    requires Blanks(u, i) < end
    ensures Blanks(v, i) == Blanks(u, i)
    decreases end - i
  {
    assert i < end;
    assert u[i] == u[..end + 1][i] == v[..end + 1][i] == v[i];
    if IsSpace(u[i]) { BlanksAgree(u, v, i + 1, end); }
  }

  lemma {:induction false} DigitsAgree(u: seq<byte>, v: seq<byte>, i: nat, end: nat, acc: nat)
    requires i <= end < |u| && end < |v| && u[..end + 1] == v[..end + 1]
    requires !IsDigit(u[end])
    ensures Digits(v, i, acc) == Digits(u, i, acc)
    decreases end - i
  {
    assert u[i] == u[..end + 1][i] == v[..end + 1][i] == v[i];
    if IsDigit(u[i]) { DigitsAgree(u, v, i + 1, end, 10 * acc + (u[i] - ZERO)); }
  }

  /** strtol stops before the end of the header, so it sees neither the rest of the
      response nor what stands behind the buffer. */
  lemma StrtolAgrees(u: seq<byte>, v: seq<byte>, i: nat, end: nat)
    requires i <= end < |u| && end < |v| && u[..end + 1] == v[..end + 1]
    requires Blanks(u, i) < end && !IsDigit(u[end])
    ensures Strtol(v, i) == Strtol(u, i)
  {
    BlanksAgree(u, v, i, end);
    var b := Blanks(u, i);
    assert u[b] == u[..end + 1][b] == v[..end + 1][b] == v[b];
    DigitsAgree(u, v, b, end, 0);
    DigitsAgree(u, v, b + 1, end, 0);
  }

  lemma HeaderEndsInCr(s: seq<byte>)
    requires Find(s, 0, TERMINATOR).Some?
    ensures s[Find(s, 0, TERMINATOR).value] == 13
  {
    FindIsFirst(s, 0, TERMINATOR);
    AtByte(s, Find(s, 0, TERMINATOR).value, TERMINATOR, 0);
  }

  lemma PrefixAgrees(s: seq<byte>, m: nat, beyond: seq<byte>, end: nat)
    requires end < m <= |s|
    ensures (s[..m] + beyond)[..end + 1] == s[..end + 1]
  {
  }

  lemma AnnouncedIsStable(s: seq<byte>, m: nat, beyond: seq<byte>)
    requires Announces(s) && Find(s, 0, TERMINATOR).value + 4 <= m <= |s|
    ensures Announced(s[..m] + beyond, FindField(s).value) == Announced(s, FindField(s).value)
  {
    var end := Find(s, 0, TERMINATOR).value;
    HeaderEndsInCr(s);
    PrefixAgrees(s, m, beyond, end);
    StrtolAgrees(s, s[..m] + beyond, FindField(s).value + |FIELD|, end);
  }

  lemma {:induction false} HeadIsRead(chunks: seq<Chunk>, k: nat, have: seq<byte>, headerEnd: int, beyond: CString,
                                      s: seq<byte>)
    requires k <= |chunks| && s == have + Joined(chunks[k..]) && Announces(s)
    requires |have| < Find(s, 0, TERMINATOR).value + 4
    ensures var h := ReadHead(chunks, k, have, headerEnd, beyond);
      && h.headerEnd == Find(s, 0, TERMINATOR).value + 4
      && h.contentLength == Announced(s, FindField(s).value)
    decreases |chunks| - k
  {
    if k == |chunks| {
      JoinedEnd(chunks, have, s);
    } else {
      JoinedNext(chunks, k, have, s);
      var now := have + chunks[k];
      var m := |now|;
      assert now == s[..m];
      FindIsStable(s, m, 0, TERMINATOR);
      FieldIsStable(s, m);
      if m < Find(s, 0, TERMINATOR).value + 4 {
        HeadIsRead(chunks, k + 1, now, -1, beyond, s);
      } else {
        AnnouncedIsStable(s, m, beyond);
      }
    }
  }

  lemma TotalIsWhole(chunks: seq<Chunk>, beyond: CString, s: seq<byte>)
    requires s == Joined(chunks) && Announces(s)
    ensures Total(ReadHead(chunks, 0, [], 0, beyond)) == Whole(s)
  {
    Start(chunks, s);
    HeadIsRead(chunks, 0, [], 0, beyond, s);
    SameTotal(ReadHead(chunks, 0, [], 0, beyond), s);
  }

  lemma Start(chunks: seq<Chunk>, s: seq<byte>)
    requires s == Joined(chunks)
    ensures s == [] + Joined(chunks[0..])
  {
    assert chunks[0..] == chunks;
  }

  lemma SameTotal(h: Head, s: seq<byte>)
    requires Announces(s)
    requires h.headerEnd == Find(s, 0, TERMINATOR).value + 4 && h.contentLength == Announced(s, FindField(s).value)
    ensures Total(h) == Whole(s)
  {
  }

  /** When the header announces the length, header and body come back whole, as far as
      the server sent them, whatever the reads and whatever stands behind the buffer. */
  lemma AnnouncedResponse(chunks: seq<Chunk>, beyond: CString, s: seq<byte>)
    requires s == Joined(chunks) && Announces(s)
    ensures var r := Response(chunks, beyond);
      && 1 <= |r| <= |s| + 1 && r == s[..|r| - 1] + [0]
      && (|r| - 1 >= Whole(s) || |r| - 1 == |s|)
  {
    TotalIsWhole(chunks, beyond, s);
    ResponseIsPrefix(chunks, beyond);
  }

  /** Two ways of cutting one stream. */
  lemma CutsDoNotMatter(a: seq<Chunk>, b: seq<Chunk>, x: CString, y: CString, s: seq<byte>)
    requires Joined(a) == s && Joined(b) == s && Announces(s)
    ensures |s| <= Whole(s) ==> Response(a, x) == Response(b, y) == s + [0]
    ensures |s| > Whole(s) ==>
              && |Response(a, x)| > Whole(s) && |Response(b, y)| > Whole(s)
              && Response(a, x)[..Whole(s)] == Response(b, y)[..Whole(s)] == s[..Whole(s)]
  {
    AnnouncedResponse(a, x, s);
    AnnouncedResponse(b, y, s);
    PrefixWithNul(s, Response(a, x), Whole(s));
    PrefixWithNul(s, Response(b, y), Whole(s));
  }

  // ------------------------------------------------------- the length, as a number

  /** The digits of a number are read as that number. */
  lemma {:induction false} DecimalRead(t: seq<byte>, i: nat, m: nat)
    requires At(t, i, Decimal(m))
    ensures i < i + |Decimal(m)| <= |t| && IsDigit(t[i])
    ensures Digits(t, i, 0) == Digits(t, i + |Decimal(m)|, m)
  {
    if m < 10 {
      AtByte(t, i, Decimal(m), 0);
    } else {
      AtAppend(t, i, Decimal(m / 10), [ZERO + m % 10]);
      DecimalRead(t, i, m / 10);
      AtByte(t, i + |Decimal(m / 10)|, [ZERO + m % 10], 0);
    }
  }

  /** Behind blanks and a sign, or none, they stand for that number, or for the end of long
      that is nearest to it. */
  lemma StrtolReads(t: seq<byte>, i: nat, b: nat, sign: seq<byte>, m: nat)
    requires i <= |t| && b == Blanks(t, i) && sign in {[], ['+' as int], ['-' as int]}
    requires At(t, b, sign + Decimal(m))
    requires b + |sign + Decimal(m)| < |t| ==> !IsDigit(t[b + |sign + Decimal(m)|])
    ensures Strtol(t, i) ==
              if sign == ['-' as int] then if m <= TWO63 then 0 - m else -TWO63
              else if m < TWO63 then m else TWO63 - 1
  {
    SignRead(t, b, sign, m, b + |sign|);
  }

  lemma SignRead(t: seq<byte>, b: nat, sign: seq<byte>, m: nat, k: nat)
    requires sign in {[], ['+' as int], ['-' as int]} && At(t, b, sign + Decimal(m)) && k == b + |sign|
    ensures b < |t| && (t[b] == MINUS <==> sign == ['-' as int]) && (t[b] in {MINUS, 43} <==> sign != [])
    ensures k <= k + |Decimal(m)| == b + |sign + Decimal(m)| <= |t|
    ensures Digits(t, k, 0) == Digits(t, k + |Decimal(m)|, m)
  {
    AtAppend(t, b, sign, Decimal(m));
    DecimalRead(t, k, m);
    if sign != [] { AtByte(t, b, sign, 0); }
  }

  /** The field comes first in the header, and after it, behind blanks, the decimal number
      m. */
  ghost predicate Declares(s: seq<byte>, m: nat) {
    var end := Find(s, 0, TERMINATOR);
    var field := FindField(s);
    && end.Some? && field.Some?
    && field.value + |FIELD| <= end.value
    && var e := Blanks(s, field.value + |FIELD|) + |Decimal(m)|;
    && At(s, Blanks(s, field.value + |FIELD|), Decimal(m)) && e <= end.value && !IsDigit(s[e])
  }

  lemma DeclaredLength(s: seq<byte>, m: nat)
    requires Declares(s, m) && m < TWO31
    ensures Announces(s) && Announced(s, FindField(s).value) == m
  {
    var i := FindField(s).value + |FIELD|;
    assert [] + Decimal(m) == Decimal(m);
    DecimalRead(s, Blanks(s, i), m);
    StrtolReads(s, i, Blanks(s, i), [], m);
  }

  lemma DeclaredWhole(s: seq<byte>, m: nat, w: nat)
    requires Declares(s, m) && m < TWO31 && w == Find(s, 0, TERMINATOR).value + 4 + m < TWO64
    ensures Announces(s) && Whole(s) == w
  {
    DeclaredLength(s, m);
    SizeFits(m, Find(s, 0, TERMINATOR).value + 4);
  }

  lemma SizeFits(m: nat, headerEnd: nat)
    requires m + headerEnd < TWO64
    ensures SizeT(m, headerEnd) == m + headerEnd
  {
  }

  /** A header that declares a body of m bytes, w bytes in all: they come back for every
      cut, and all of the stream when nothing follows them. */
  lemma DeclaredBodyComesBack(chunks: seq<Chunk>, beyond: CString, s: seq<byte>, m: nat, w: nat)
    requires s == Joined(chunks) && Declares(s, m) && m < TWO31
    requires w == Find(s, 0, TERMINATOR).value + 4 + m < TWO64
    ensures var r := Response(chunks, beyond); if |s| <= w then r == s + [0] else |r| > w && r[..w] == s[..w]
  {
    DeclaredWhole(s, m, w);
    CutsDoNotMatter(chunks, chunks, beyond, beyond, s);
  }

  /** One byte of the field's name, in either case. */
  predicate Spells(c: byte, d: char) {
    c as char == d || ('a' <= d <= 'z' && c as char == d - ' ') || ('A' <= d <= 'Z' && c as char == d + ' ')
  }

  const FIELD_NAME: string := "Content-Length: "

  predicate SpellsField(t: seq<byte>, i: nat) {
    i + |FIELD_NAME| <= |t| && forall k :: 0 <= k < |FIELD_NAME| ==> Spells(t[i + k], FIELD_NAME[k])
  }

  lemma FieldIsNamed(k: nat)
    requires k < |FIELD|
    ensures |FIELD_NAME| == |FIELD| && FIELD_NAME[k] == FIELD[k] as char
  {
  }

  lemma SpellsByte(t: seq<byte>, i: nat, k: nat)
    requires k < |FIELD| == |FIELD_NAME| && i + k < |t| && FIELD_NAME[k] == FIELD[k] as char
    ensures Spells(t[i + k], FIELD_NAME[k]) <==> Lower(t[i + k]) == Lower(FIELD[k])
  {
    LowerFolds(t[i + k], FIELD[k]);
  }

  lemma SpellsAt(t: seq<byte>, i: nat)
    ensures SpellsField(t, i) <==> At(Lowered(t), i, Lowered(FIELD))
  {
    FieldIsNamed(0);
    if i + |FIELD| <= |t| {
      forall k | 0 <= k < |FIELD|
        ensures FIELD_NAME[k] == FIELD[k] as char
        ensures Spells(t[i + k], FIELD_NAME[k]) <==> Lowered(t)[i + k] == Lowered(FIELD)[k]
      {
        FieldIsNamed(k);
        SpellsByte(t, i, k);
      }
      var part := Lowered(t)[i..i + |FIELD|];
      assert forall k :: 0 <= k < |FIELD| ==> part[k] == Lowered(t)[i + k];
    }
  }

  /** The field found is the first one spelt like this, in capitals or not. */
  lemma FieldFound(t: seq<byte>)
    ensures match FindField(t)
            case Some(i) => SpellsField(t, i) && forall k :: 0 <= k < i ==> !SpellsField(t, k)
            case None => forall k :: 0 <= k ==> !SpellsField(t, k)
  {
    FindIsFirst(Lowered(t), 0, Lowered(FIELD));
    forall k | 0 <= k ensures SpellsField(t, k) <==> At(Lowered(t), k, Lowered(FIELD)) { SpellsAt(t, k); }
  }

  predicate BlankLineAt(t: seq<byte>, i: nat) {
    i + 4 <= |t| && t[i..i + 4] == ['\r' as int, '\n' as int, '\r' as int, '\n' as int]
  }

  /** The header ends at the first empty line. */
  lemma HeaderEndFound(t: seq<byte>)
    ensures match Find(t, 0, TERMINATOR)
            case Some(i) => BlankLineAt(t, i) && forall k :: 0 <= k < i ==> !BlankLineAt(t, k)
            case None => forall k :: 0 <= k ==> !BlankLineAt(t, k)
  {
    FindIsFirst(t, 0, TERMINATOR);
    assert forall k :: 0 <= k ==> (BlankLineAt(t, k) <==> At(t, k, TERMINATOR));
  }

  lemma PrefixWithNul(s: seq<byte>, r: seq<byte>, total: int)
    requires 1 <= |r| <= |s| + 1 && r == s[..|r| - 1] + [0] && total >= 0
    requires |r| - 1 >= total || |r| - 1 == |s|
    ensures if |s| <= total then r == s + [0] else |r| > total && r[..total] == s[..total]
  {
  }

  /** Without the field anywhere, everything up to the end of the connection. */
  lemma NoFieldReadsAll(chunks: seq<Chunk>, beyond: CString)
    requires FindField(Joined(chunks)) == None
    ensures Response(chunks, beyond) == Joined(chunks) + [0]
  {
    LateReadsAll(chunks, beyond, Joined(chunks));
  }

  lemma FoundAt(t: seq<byte>, i: nat, pat: seq<byte>)
    requires pat != [] && At(t, i, pat) && forall k :: 0 <= k < i ==> t[k] != pat[0]
    ensures Find(t, 0, pat) == Some(i)
  {
    FindIsFirst(t, 0, pat);
    var r := Find(t, 0, pat);
    if r.Some? && r.value < i { AtByte(t, r.value, pat, 0); }
  }

  /** A read that already holds what the first field found asks for ends the response. */
  lemma FullReadEnds(p: Chunk, rest: seq<Chunk>, beyond: CString)
    requires Find(p, 0, TERMINATOR).Some? && FindField(p).Some?
    requires SizeT(Announced(p + beyond, FindField(p).value), Find(p, 0, TERMINATOR).value + 4) <= |p|
    ensures Response([p] + rest, beyond) == p + [0]
  {
    assert [] + ([p] + rest)[0] == p;
    OneRead([p] + rest, p, beyond);
  }

  lemma OneRead(chunks: seq<Chunk>, p: Chunk, beyond: CString)
    requires chunks != [] && [] + chunks[0] == p && Find(p, 0, TERMINATOR).Some? && FindField(p).Some?
    ensures ReadHead(chunks, 0, [], 0, beyond) ==
            Head(1, p, Find(p, 0, TERMINATOR).value + 4, Announced(p + beyond, FindField(p).value))
  {
  }

  // ------------------------------------------------ when the header does not announce

  /** Where both the terminator and the field have come in. */
  function Detected(s: seq<byte>): Option<nat> {
    var end, field := Find(s, 0, TERMINATOR), FindField(s);
    if end == None || field == None then None
    else Some(if end.value + 4 > field.value + |FIELD| then end.value + 4 else field.value + |FIELD|)
  }

  lemma DetectedIsStable(s: seq<byte>, m: nat)
    requires m <= |s|
    ensures var d := Detected(s); Detected(s[..m]) == if d.Some? && d.value <= m then d else None
  {
    FindIsStable(s, m, 0, TERMINATOR);
    FieldIsStable(s, m);
  }

  /** Detection at the very end, or never: the first loop takes every read. */
  lemma {:induction false} LateHead(chunks: seq<Chunk>, k: nat, have: seq<byte>, headerEnd: int, beyond: CString,
                                    s: seq<byte>)
    requires k <= |chunks| && s == have + Joined(chunks[k..])
    requires Detected(s) == None || Detected(s) == Some(|s|)
    ensures ReadHead(chunks, k, have, headerEnd, beyond).next == |chunks|
    decreases |chunks| - k
  {
    if k < |chunks| {
      JoinedNext(chunks, k, have, s);
      var now := have + chunks[k];
      assert now == s[..|now|];
      DetectedIsStable(s, |now|);
      var end := Find(now, 0, TERMINATOR);
      if Detected(now) == None {
        LateHead(chunks, k + 1, now, if end == None then -1 else end.value + 4, beyond, s);
      } else {
        NothingBehind(chunks, k + 1);
      }
    }
  }

  lemma NothingBehind(chunks: seq<Chunk>, k: nat)
    requires k <= |chunks| && Joined(chunks[k..]) == []
    ensures k == |chunks|
  {
  }

  lemma LateReadsAll(chunks: seq<Chunk>, beyond: CString, s: seq<byte>)
    requires s == Joined(chunks) && (Detected(s) == None || Detected(s) == Some(|s|))
    ensures Response(chunks, beyond) == s + [0]
  {
    Start(chunks, s);
    LateHead(chunks, 0, [], 0, beyond, s);
    HeadIsPrefix(chunks, 0, [], 0, beyond, s);
    JoinedEnd(chunks, ReadHead(chunks, 0, [], 0, beyond).have, s);
  }

  /** The stream read byte by byte. */
  function Singles(s: seq<byte>): (c: seq<Chunk>)
    ensures |c| == |s| && forall k :: 0 <= k < |s| ==> c[k] == [s[k]]
  {
    seq(|s|, k requires 0 <= k < |s| => [s[k]])
  }

  lemma {:induction false} JoinedSingles(s: seq<byte>, k: nat)
    requires k <= |s|
    ensures Joined(Singles(s)[k..]) == s[k..]
    decreases |s| - k
  {
    if k < |s| {
      assert Singles(s)[k..][1..] == Singles(s)[k + 1..];
      JoinedSingles(s, k + 1);
      assert s[k..] == [s[k]] + s[k + 1..];
    }
  }

  lemma BlanksTo(t: seq<byte>, i: nat, j: nat)
    requires i <= j < |t| && !IsSpace(t[j]) && forall k :: i <= k < j ==> IsSpace(t[k])
    ensures Blanks(t, i) == j
  {
    assert !(Blanks(t, i) < j);
  }

  lemma NumberFromNul(t: seq<byte>, i: nat, j: nat)
    requires i <= j < |t| && t[j] == 0 && forall k :: i <= k < j ==> IsSpace(t[k])
    ensures AsInt(Strtol(t, i)) == 0
  {
    BlanksTo(t, i, j);
    assert Digits(t, j, 0) == 0;
  }

  /** The field does not overlap the terminator: its last byte is a space. */
  lemma Apart(s: seq<byte>, end: nat, field: nat)
    requires At(s, end, TERMINATOR) && At(Lowered(s), field, Lowered(FIELD))
    ensures field + |FIELD| <= end || end + 4 < field + |FIELD|
    ensures end + 4 <= |s| && forall k :: end <= k < end + 4 ==> IsSpace(s[k])
  {
    TerminatorBytes(s, end);
    FieldEndsInSpace(s, field);
  }

  lemma DetectedAt(s: seq<byte>) returns (end: nat, field: nat)
    requires Detected(s).Some?
    ensures Find(s, 0, TERMINATOR) == Some(end) && FindField(s) == Some(field)
    ensures At(s, end, TERMINATOR) && At(Lowered(s), field, Lowered(FIELD))
  {
    end, field := Find(s, 0, TERMINATOR).value, FindField(s).value;
    FindIsFirst(s, 0, TERMINATOR);
    FindIsFirst(Lowered(s), 0, Lowered(FIELD));
  }

  lemma TerminatorBytes(s: seq<byte>, end: nat)
    requires At(s, end, TERMINATOR)
    ensures end + 4 <= |s| && s[end] == 13 && s[end + 1] == 10 && s[end + 2] == 13 && s[end + 3] == 10
  {
    AtByte(s, end, TERMINATOR, 0);
    AtByte(s, end, TERMINATOR, 1);
    AtByte(s, end, TERMINATOR, 2);
    AtByte(s, end, TERMINATOR, 3);
  }

  lemma FieldEndsInSpace(s: seq<byte>, field: nat)
    requires At(Lowered(s), field, Lowered(FIELD))
    ensures field + |FIELD| <= |s| && s[field + 15] == 32
  {
    AtByte(Lowered(s), field, Lowered(FIELD), 15);
  }

  /** At the moment of detection, with a NUL behind it, the number that is not announced
      reads as zero. */
  lemma NothingAnnounced(s: seq<byte>)
    requires Detected(s).Some? && !Announces(s)
    ensures var m := Detected(s).value;
      m <= |s| && FindField(s).value + |FIELD| <= m && Announced(s[..m] + [0], FindField(s).value) == 0
  {
    var m := Detected(s).value;
    var end, field := DetectedAt(s);
    var i := field + |FIELD|;
    Apart(s, end, field);
    var t := s[..m] + [0];
    assert forall k :: 0 <= k < m ==> t[k] == s[k];
    if i <= end { assert Blanks(s, i) >= end; }
    NumberFromNul(t, i, m);
  }

  /** The head of the stream, once terminator and field have come in. */
  function DetectedHead(s: seq<byte>): Head
    requires Detected(s).Some? && Detected(s).value <= |s|
  {
    var m := Detected(s).value;
    Head(m, s[..m], Find(s, 0, TERMINATOR).value + 4, Announced(s[..m] + [0], FindField(s).value))
  }

  lemma {:induction false} SinglesHead(s: seq<byte>, k: nat, headerEnd: int)
    requires Detected(s).Some? && k < Detected(s).value <= |s|
    ensures ReadHead(Singles(s), k, s[..k], headerEnd, [0]) == DetectedHead(s)
    decreases |s| - k
  {
    var e := SinglesOnce(s, k, headerEnd);
    if k + 1 < Detected(s).value { SinglesHead(s, k + 1, e); }
  }

  /** One turn of the loop. */
  lemma SinglesOnce(s: seq<byte>, k: nat, headerEnd: int) returns (e: int)
    requires Detected(s).Some? && k < Detected(s).value <= |s|
    ensures ReadHead(Singles(s), k, s[..k], headerEnd, [0]) ==
            if k + 1 < Detected(s).value then ReadHead(Singles(s), k + 1, s[..k + 1], e, [0]) else DetectedHead(s)
  {
    var now, end, field := SinglesStep(s, k);
    e := if end == None then -1 else end.value + 4;
    if k + 1 < Detected(s).value {
      HeadGoesOn(Singles(s), k, s[..k], headerEnd, [0], now, end, field);
    } else {
      HeadIsFull(Singles(s), k, s[..k], headerEnd, [0], now, end, field);
      HeadDetected(s, now, end, field);
    }
  }

  lemma HeadDetected(s: seq<byte>, now: seq<byte>, end: Option<nat>, field: Option<nat>)
    requires Detected(s).Some? && Detected(s).value <= |s| && now == s[..Detected(s).value]
    requires end == Find(s, 0, TERMINATOR) && field == FindField(s) && field == FindField(now)
    ensures DetectedHead(s) == Head(Detected(s).value, now, end.value + 4, Announced(now + [0], field.value))
  {
  }

  lemma HeadIsFull(chunks: seq<Chunk>, k: nat, have: seq<byte>, headerEnd: int, beyond: CString,
                   now: seq<byte>, end: Option<nat>, field: Option<nat>)
    requires k < |chunks| && now == have + chunks[k] && end == Find(now, 0, TERMINATOR) && field == FindField(now)
    requires end != None && field != None
    ensures ReadHead(chunks, k, have, headerEnd, beyond) ==
            Head(k + 1, now, end.value + 4, Announced(now + beyond, field.value))
  {
  }

  lemma HeadGoesOn(chunks: seq<Chunk>, k: nat, have: seq<byte>, headerEnd: int, beyond: CString,
                   now: seq<byte>, end: Option<nat>, field: Option<nat>)
    requires k < |chunks| && now == have + chunks[k] && end == Find(now, 0, TERMINATOR) && field == FindField(now)
    requires end == None || field == None
    ensures ReadHead(chunks, k, have, headerEnd, beyond) ==
            ReadHead(chunks, k + 1, now, if end == None then -1 else end.value + 4, beyond)
  {
  }

  /** One more byte: what is sought has come in with the last one, and not before. */
  lemma SinglesStep(s: seq<byte>, k: nat) returns (now: seq<byte>, end: Option<nat>, field: Option<nat>)
    requires Detected(s).Some? && k < Detected(s).value <= |s|
    ensures now == s[..k + 1] == s[..k] + Singles(s)[k] && end == Find(now, 0, TERMINATOR) && field == FindField(now)
    ensures if k + 1 < Detected(s).value then end == None || field == None
            else end == Find(s, 0, TERMINATOR) && field == FindField(s)
  {
    now := s[..k + 1];
    end, field := Find(now, 0, TERMINATOR), FindField(now);
    FindIsStable(s, k + 1, 0, TERMINATOR);
    FieldIsStable(s, k + 1);
  }

  /** Read byte by byte, a stream whose header does not announce its length ends where
      terminator and field have come in. */
  lemma SinglesCutShort(s: seq<byte>)
    requires Detected(s).Some? && !Announces(s)
    ensures Detected(s).value <= |s| && Response(Singles(s), [0]) == s[..Detected(s).value] + [0]
  {
    NothingAnnounced(s);
    SinglesHead(s, 0, 0);
    assert s[..0] == [];
  }

  /** The whole stream comes back for every way of cutting it, whatever stands behind the
      buffer. */
  ghost predicate ComesWhole(s: seq<byte>) {
    forall chunks: seq<Chunk>, beyond: CString :: Joined(chunks) == s ==> Response(chunks, beyond) == s + [0]
  }

  lemma LateComesWhole(s: seq<byte>)
    requires Detected(s) == None || Detected(s) == Some(|s|)
    ensures ComesWhole(s)
  {
    forall chunks: seq<Chunk>, beyond: CString | Joined(chunks) == s ensures Response(chunks, beyond) == s + [0] {
      LateReadsAll(chunks, beyond, s);
    }
  }

  lemma NotWhole(s: seq<byte>, chunks: seq<Chunk>, beyond: CString)
    requires Joined(chunks) == s && |Response(chunks, beyond)| < |s| + 1
    ensures !ComesWhole(s)
  {
    assert Response(chunks, beyond) != s + [0];
  }

  /** Without an announced length, the stream comes whole exactly when terminator or field
      never come in, or it ends with the later of the two. */
  lemma UnannouncedComesWhole(s: seq<byte>)
    requires !Announces(s)
    ensures ComesWhole(s) == (Find(s, 0, TERMINATOR) == None || FindField(s) == None || Detected(s) == Some(|s|))
  {
    if Detected(s) == None || Detected(s) == Some(|s|) {
      LateComesWhole(s);
    } else {
      EarlyIsCutShort(s);
    }
  }

  lemma EarlyIsCutShort(s: seq<byte>)
    requires Detected(s).Some? && !Announces(s) && Detected(s) != Some(|s|)
    ensures !ComesWhole(s)
  {
    SinglesLoseBytes(s);
    NotWhole(s, Singles(s), [0]);
  }

  lemma SinglesLoseBytes(s: seq<byte>)
    requires Detected(s).Some? && !Announces(s) && Detected(s) != Some(|s|)
    ensures Joined(Singles(s)) == s && |Response(Singles(s), [0])| < |s| + 1
  {
    SinglesCutShort(s);
    JoinedSingles(s, 0);
    assert Singles(s)[0..] == Singles(s) && s[0..] == s;
  }

  /** A status line, and nothing else in the header. */
  const STATUS_LINE: seq<byte> := [72, 84, 84, 80, 47, 49, 46, 49, 32, 50, 48, 48, 32, 79, 75]

  /** An answer whose body holds the text of the field: whole from one read, and cut short
      from two. */
  lemma FieldInBodyCutsShort(beyond: CString)
    ensures var p: Chunk := STATUS_LINE + TERMINATOR + FIELD + [48, 32];
      && Response([p + [120]], beyond) == p + [120] + [0]
      && Response([p, [120]], beyond) == p + [0]
  {
    var p: Chunk := STATUS_LINE + TERMINATOR + FIELD + [48, 32];
    var q: Chunk := p + [120];
    FieldInBody(p, [], beyond);
    FieldInBody(q, [120], beyond);
    assert p + [] == p;
    FullReadEnds(p, [[120]], beyond);
    FullReadEnds(q, [], beyond);
    assert [p] + [[120]] == [p, [120]] && [q] + [] == [q];
  }

  lemma FieldInBody(p: seq<byte>, tail: seq<byte>, beyond: CString)
    requires p == STATUS_LINE + TERMINATOR + FIELD + [48, 32] + tail
    ensures Find(p, 0, TERMINATOR) == Some(15) && FindField(p) == Some(19)
    ensures Announced(p + beyond, 19) == 0
  {
    assert p[..15] == STATUS_LINE && p[15..19] == TERMINATOR && p[19..35] == FIELD;
    TerminatorAt(p);
    FieldAt(p);
    ZeroFollows(p + beyond, 35);
  }

  lemma TerminatorAt(p: seq<byte>)
    requires |p| > 19 && p[..15] == STATUS_LINE && p[15..19] == TERMINATOR
    ensures Find(p, 0, TERMINATOR) == Some(15)
  {
    forall k | 0 <= k < 15 ensures p[k] != 13 { assert p[k] == STATUS_LINE[k]; }
    FoundAt(p, 15, TERMINATOR);
  }

  lemma FieldAt(p: seq<byte>)
    requires |p| > 35 && p[..15] == STATUS_LINE && p[15..19] == TERMINATOR && p[19..35] == FIELD
    ensures FindField(p) == Some(19)
  {
    assert Lowered(p)[19..35] == Lowered(p[19..35]);
    NoFieldByte(p);
    FoundAt(Lowered(p), 19, Lowered(FIELD));
  }

  /** No letter of the status line starts the field. */
  lemma NoFieldByte(p: seq<byte>)
    requires |p| > 19 && p[..15] == STATUS_LINE && p[15..19] == TERMINATOR
    ensures forall k :: 0 <= k < 19 ==> Lowered(p)[k] != Lowered(FIELD)[0]
  {
    forall k | 0 <= k < 19 ensures Lowered(p)[k] != 99 {
      if k < 15 { assert p[k] == STATUS_LINE[k]; } else { assert p[k] == TERMINATOR[k - 15]; }
    }
  }

  lemma ZeroFollows(t: seq<byte>, i: nat)
    requires i + 2 <= |t| && t[i] == 48 && t[i + 1] == 32
    ensures AsInt(Strtol(t, i)) == 0
  {
    assert Blanks(t, i) == i;
    assert Digits(t, i + 1, 0) == 0;
  }

  // --------------------------------------------------------------------- methods

  /** struct buffer: size is the length of the allocation. */
  class Buffer {
    var data: array<byte>

    constructor ()
      ensures fresh(data) && data[..] == []
    {
      data := new byte[0];
    }

    /** buffer_add: realloc, then memcpy. */
    method Add(chunk: seq<byte>)
      modifies this
      ensures fresh(data) && data[..] == old(data[..]) + chunk
    {
      var size := data.Length;
      var grown := new byte[size + |chunk|];
      forall i | 0 <= i < size {
        grown[i] := data[i];
      }
      forall i | 0 <= i < |chunk| {
        grown[size + i] := chunk[i];
      }
      data := grown;
    }

    /** buffer_find. */
    method Find(pat: seq<byte>) returns (r: int)
      ensures r == IndexOf(Bytes.Find(data[..], 0, pat))
    {
      if |pat| > data.Length {
        TooShort(data[..], 0, pat);
        return -1;
      }
      var last := data.Length - |pat| + 1;
      var i := 0;
      while i < last
        invariant 0 <= i <= last
        invariant Bytes.Find(data[..], 0, pat) == Bytes.Find(data[..], i, pat)
      {
        var j := 0;
        while j < |pat| && data[i + j] == pat[j]
          invariant 0 <= j <= |pat|
          invariant data[i..i + j] == pat[..j]
        {
          j := j + 1;
        }
        if j == |pat| {
          assert At(data[..], i, pat);
          return i;
        }
        Differs(data[..], i, pat, j);
        i := i + 1;
      }
      TooShort(data[..], i, pat);
      return -1;
    }

    /** The inner loop of its caller. */
    method AgreeUpTo(pat: seq<byte>, i: nat) returns (j: nat)
      requires i + |pat| <= data.Length
      ensures j <= |pat| && (j < |pat| ==> Lowered(data[..])[i + j] != Lowered(pat)[j])
      ensures forall m :: 0 <= m < j ==> Lowered(data[..])[i + m] == Lowered(pat)[m]
    {
      j := 0;
      while j < |pat| && Lower(data[i + j]) == Lower(pat[j])
        invariant 0 <= j <= |pat|
        invariant forall m :: 0 <= m < j ==> Lowered(data[..])[i + m] == Lowered(pat)[m]
      {
        j := j + 1;
      }
    }

    /** buffer_find_insensitive. */
    method FindInsensitive(pat: seq<byte>) returns (r: int)
      ensures r == IndexOf(Bytes.Find(Lowered(data[..]), 0, Lowered(pat)))
    {
      ghost var low, key := Lowered(data[..]), Lowered(pat);
      if |pat| > data.Length {
        TooShort(low, 0, key);
        return -1;
      }
      var last := data.Length - |pat| + 1;
      var i := 0;
      while i < last
        invariant 0 <= i <= last
        invariant Bytes.Find(low, 0, key) == Bytes.Find(low, i, key)
      {
        var j := AgreeUpTo(pat, i);
        if j == |pat| {
          Agrees(low, i, key);
          return i;
        }
        Differs(low, i, key, j);
        i := i + 1;
      }
      TooShort(low, i, key);
      return -1;
    }
  }

  lemma Agrees(t: seq<byte>, i: nat, pat: seq<byte>)
    requires i + |pat| <= |t| && forall m :: 0 <= m < |pat| ==> t[i + m] == pat[m]
    ensures At(t, i, pat)
  {
  }

  lemma Differs(t: seq<byte>, i: nat, pat: seq<byte>, j: nat)
    requires j < |pat| && i + j < |t| && t[i + j] != pat[j]
    ensures !At(t, i, pat)
  {
    if At(t, i, pat) { AtByte(t, i, pat, j); }
  }

  lemma {:induction false} TooShort(t: seq<byte>, i: nat, pat: seq<byte>)
    requires i + |pat| > |t|
    ensures Find(t, i, pat) == None
    decreases |t| - i
  {
    if i <= |t| { TooShort(t, i + 1, pat); }
  }

  /** receive_from_server: each read takes the next chunk, and after the last one the
      connection is closed. */
  method ReceiveFromServer(chunks: seq<Chunk>, beyond: CString) returns (response: array<byte>)
    ensures response[..] == Response(chunks, beyond)
  {
    var buffer := new Buffer();
    var k, headerEnd, contentLength := ReceiveHead(buffer, chunks, beyond);
    ReceiveBody(buffer, chunks, k, SizeT(contentLength, headerEnd));
    buffer.Add([0]);
    response := buffer.data;
  }

  /** Its first loop. */
  method ReceiveHead(buffer: Buffer, chunks: seq<Chunk>, beyond: CString)
    returns (k: nat, headerEnd: int, contentLength: int)
    requires buffer.data[..] == []
    modifies buffer
    ensures ReadHead(chunks, 0, [], 0, beyond) == Head(k, buffer.data[..], headerEnd, contentLength)
  {
    k, headerEnd, contentLength := 0, 0, 0;
    ghost var head := ReadHead(chunks, 0, [], 0, beyond);
    while k < |chunks|
      invariant 0 <= k <= |chunks| && contentLength == 0
      invariant head == ReadHead(chunks, k, buffer.data[..], headerEnd, beyond)
    {
      buffer.Add(chunks[k]);
      k := k + 1;
      headerEnd := buffer.Find(TERMINATOR);
      if headerEnd >= 0 {
        headerEnd := headerEnd + 4;
        var field := buffer.FindInsensitive(FIELD);
        if field < 0 {
          continue;
        }
        contentLength := Announced(buffer.data[..] + beyond, field);
        break;
      }
    }
  }

  /** Its second loop. */
  method ReceiveBody(buffer: Buffer, chunks: seq<Chunk>, next: nat, total: nat)
    requires next <= |chunks|
    modifies buffer
    ensures buffer.data[..] == ReadBody(chunks, next, old(buffer.data[..]), total)
  {
    var k := next;
    ghost var whole := ReadBody(chunks, next, buffer.data[..], total);
    while buffer.data.Length < total && k < |chunks|
      invariant next <= k <= |chunks|
      invariant whole == ReadBody(chunks, k, buffer.data[..], total)
    {
      buffer.Add(chunks[k]);
      k := k + 1;
    }
  }
}
