/** What the parser makes of a text of the syntax. A value that nothing continues is read
    to its meaning and its end exactly when it is accepted: when parson's lexical rules
    hold in it, no object repeats a key, no key holds a NUL, and it is not nested too
    deep for where it stands. ItemsResult and MembersResult say what the loops make of
    the entries of a container; that this comes to the same is shown for them alone,
    without looking at the text. */
module JsonConformance {
  import opened Bytes
  import opened JsonTree
  import opened JsonGrammar
  import opened JsonSyntax
  import opened JsonSyntaxLexical
  import JsonText
  import JsonWellFormed

  // ------------------------------------------------------------- white space

  predicate AllSpace(t: seq<byte>) {
    forall k :: 0 <= k < |t| ==> IsSpace(t[k])
  }

  lemma {:induction false} SkipWsRun(s: CString, i: nat, j: nat)
    requires i <= j < |s| && forall k :: i <= k < j ==> IsSpace(s[k])
    ensures SkipWs(s, i) == SkipWs(s, j)
    decreases j - i
  {
    if i < j { SkipWsRun(s, i + 1, j); }
  }

  lemma SkipWsOver(s: CString, i: nat, t: seq<byte>)
    requires At(s, i, t) && AllSpace(t) && i + |t| < |s|
    ensures SkipWs(s, i) == SkipWs(s, i + |t|)
  {
    forall k | i <= k < i + |t| ensures IsSpace(s[k]) {
      AtByte(s, i, t, k - i);
      assert IsSpace(t[k - i]);
    }
    SkipWsRun(s, i, i + |t|);
  }

  lemma ParseValueSkips(s: CString, i: nat, j: nat, n: nat)
    requires i < |s| && j < |s| && SkipWs(s, i) == SkipWs(s, j)
    ensures ParseValue(s, i, n) == ParseValue(s, j, n)
  {
  }

  /** White space is passed over up to the byte behind it. */
  lemma GapRead(s: CString, i: nat, gap: seq<byte>)
    requires At(s, i, gap) && IsGap(gap, Wide) && i + |gap| < |s| && !IsSpace(s[i + |gap|])
    ensures SkipWs(s, i) == i + |gap|
  {
    SkipWsOver(s, i, gap);
  }

  lemma GapDerived(s: CString, i: nat)
    requires i < |s|
    ensures IsGap(s[i..SkipWs(s, i)], Parson)
  {
  }

  // ------------------------------------------------------------------ reading

  /** What parson asks of a value below n containers, beyond what RFC 8259 does: its
      lexical rules, unique keys without a NUL, and bounded nesting. */
  predicate Accepted(d: Syntax, n: nat) {
    SyntaxIn(d, Parson) && WellFormed(Meaning(d)) && Fits(Meaning(d), n)
  }

  predicate EndsAt(s: CString, e: nat, d: Syntax)
    requires e < |s|
  {
    d.NumberWord? ==> !Continues(s, e, d.numeral)
  }

  predicate Delimiter(c: byte) {
    IsSpace(c) || c in {0, COMMA, RBRACKET, RBRACE}
  }

  lemma DelimiterEnds(s: CString, e: nat, d: Syntax)
    requires e < |s| && Delimiter(s[e])
    ensures EndsAt(s, e, d)
  {
  }

  /** No value starts with white space, a NUL, a closing bracket or a byte order mark. */
  lemma SyntaxStart(d: Syntax)
    requires SyntaxIn(d, Wide)
    ensures |SyntaxText(d)| > 0
    ensures var c := SyntaxText(d)[0]; !IsSpace(c) && c !in {0, COMMA, RBRACKET, RBRACE} && c < 0x80
  {
    match d
    case NumberWord(n) => NumeralStart(n);
    case StringWord(ps) => assert SyntaxText(d)[0] == QUOTE;
    case EmptyArray(_) => assert SyntaxText(d)[0] == LBRACKET;
    case ArrayOf(_) => assert SyntaxText(d)[0] == LBRACKET;
    case EmptyObject(_) => assert SyntaxText(d)[0] == LBRACE;
    case ObjectOf(_) => assert SyntaxText(d)[0] == LBRACE;
    case _ =>
  }

  lemma NumeralStart(n: Numeral)
    requires NumeralIn(n, Wide)
    ensures |NumeralText(n)| > 0 && (NumeralText(n)[0] == MINUS || IsDigit(NumeralText(n)[0]))
  {
    SignSplits(n);
    if !n.neg {
      assert NumeralText(n)[0] == n.whole[0];
      assert IsDigit(n.whole[0]);
    }
  }

  lemma Bracketed(s: seq<byte>, i: nat, open: byte, t: seq<byte>, close: byte) returns (q: nat)
    requires At(s, i, [open] + t + [close])
    ensures q == i + 1 + |t| < |s| && s[i] == open && At(s, i + 1, t) && s[q] == close
  {
    q := i + 1 + |t|;
    AtAppend(s, i, [open] + t, [close]);
    AtAppend(s, i, [open], t);
    AtByte(s, i, [open], 0);
    AtByte(s, q, [close], 0);
  }

  /** The position behind an entry that lies at i. */
  function EntryEnd(s: seq<byte>, i: nat, x: Entry): (r: Option<nat>)
    ensures r.Some? ==> i <= r.value <= |s|
  {
    Behind(s, i, EntryText(x))
  }

  /** Text between white space: it starts at p, ends at j, and e is what is found behind. */
  lemma Framed(s: CString, i: nat, before: seq<byte>, t: seq<byte>, after: seq<byte>, e: nat) returns (p: nat, j: nat)
    requires At(s, i, before + t + after) && e == i + |before + t + after| < |s|
    requires IsGap(before, Wide) && IsGap(after, Wide) && t != [] && !IsSpace(t[0]) && !IsSpace(s[e])
    ensures p < j < |s| && At(s, p, t) && j == p + |t|
    ensures SkipWs(s, i) == p && s[p] == t[0]
    ensures SkipWs(s, j) == e && (s[j] == s[e] || IsSpace(s[j]))
  {
    p := i + |before|;
    j := p + |t|;
    AtAppend(s, i, before + t, after);
    AtAppend(s, i, before, t);
    AtByte(s, p, t, 0);
    GapRead(s, i, before);
    GapRead(s, j, after);
    if after != [] { AtByte(s, j, after, 0); }
  }

  /** Where the value of an entry starts and what stands behind it. */
  lemma EntryPlaced(s: CString, i: nat, x: Entry, e: nat) returns (p: nat, j: nat)
    requires EntryEnd(s, i, x) == Some(e) && EntryIn(x, Wide)
    requires e < |s| && s[e] in {COMMA, RBRACKET, RBRACE}
    ensures p < j < |s| && At(s, p, SyntaxText(x.value)) && j == p + |SyntaxText(x.value)|
    ensures SkipWs(s, i) == p && s[p] !in {0, RBRACKET, RBRACE}
    ensures SkipWs(s, j) == e && EndsAt(s, j, x.value)
  {
    SyntaxStart(x.value);
    p, j := Framed(s, i, x.before, SyntaxText(x.value), x.after, e);
    DelimiterEnds(s, j, x.value);
  }

  /** A value with white space around it: e is where the reader gets to. */
  predicate EntryResult(s: CString, i: nat, n: nat, x: Entry, e: nat)
    requires i < |s|
  {
    var r := ParseValue(s, i, n);
    if Accepted(x.value, n) then r.Ok? && r.value == Meaning(x.value) && SkipWs(s, r.end) == e else r.Fail?
  }

  lemma {:induction false} EntryRead(s: CString, i: nat, n: nat, x: Entry, e: nat)
    requires EntryEnd(s, i, x) == Some(e) && EntryIn(x, Wide)
    requires e < |s| && s[e] in {COMMA, RBRACKET, RBRACE}
    ensures EntryResult(s, i, n, x, e)
    ensures s[SkipWs(s, i)] !in {0, RBRACKET, RBRACE}
    decreases x, 0
  {
    var p, j := EntryPlaced(s, i, x, e);
    ValueRead(s, p, n, x.value);
    assert SkipWs(s, p) == p;
    ParseValueSkips(s, i, p, n);
  }

  /** One turn of the array loop, up to the comma or bracket at e. */
  lemma ItemTurn(s: CString, i: nat, n: nat, done: seq<Value>, x: Entry, e: nat, more: bool)
    requires i < |s| && e < |s| && EntryResult(s, i, n, x, e) && s[SkipWs(s, i)] != 0
    requires s[e] == if more then COMMA else RBRACKET
    ensures ParseItems(s, SkipWs(s, i), n, done)
         == if !Accepted(x.value, n) then Fail
            else if more then ParseItems(s, SkipWs(s, e + 1), n, done + [Meaning(x.value)])
            else Ok(done + [Meaning(x.value)], e + 1)
  {
    assert SkipWs(s, SkipWs(s, i)) == SkipWs(s, i);
    ParseValueSkips(s, SkipWs(s, i), i, n);
  }

  /** The closing bracket behind items that lie at i. */
  function ItemsEnd(s: seq<byte>, i: nat, items: Items): Option<nat>
    decreases items
  {
    match EntryEnd(s, i, items.item)
    case None => None
    case Some(e) =>
      if e == |s| || s[e] != (if items.MoreItems? then COMMA else RBRACKET) then None
      else if items.MoreItems? then ItemsEnd(s, e + 1, items.rest)
      else Some(e)
  }

  lemma {:induction false} ItemsLayout(s: seq<byte>, i: nat, items: Items, end: nat)
    requires At(s, i, ItemsText(items)) && end == i + |ItemsText(items)| < |s| && s[end] == RBRACKET
    ensures ItemsEnd(s, i, items) == Some(end)
    decreases items
  {
    var e := i + |EntryText(items.item)|;
    if items.MoreItems? {
      AtAppend(s, i, EntryText(items.item), [COMMA] + ItemsText(items.rest));
      AtAppend(s, e, [COMMA], ItemsText(items.rest));
      AtByte(s, e, [COMMA], 0);
      ItemsLayout(s, e + 1, items.rest, end);
    } else {
      assert ItemsText(items) == EntryText(items.item);
    }
  }

  /** What the array loop makes of the remaining items. */
  function ItemsResult(done: seq<Value>, items: Items, n: nat, end: nat): Parsed<seq<Value>>
    decreases items
  {
    var one := done + [Meaning(items.item.value)];
    if !Accepted(items.item.value, n) then Fail
    else if items.MoreItems? then ItemsResult(one, items.rest, n, end)
    else Ok(one, end + 1)
  }

  lemma {:induction false} ItemRead(s: CString, i: nat, e: nat, n: nat, done: seq<Value>, x: Entry, more: bool)
    requires EntryEnd(s, i, x) == Some(e) && EntryIn(x, Wide)
    requires e < |s| && s[e] == if more then COMMA else RBRACKET
    ensures ParseItems(s, SkipWs(s, i), n, done)
         == if !Accepted(x.value, n) then Fail
            else if more then ParseItems(s, SkipWs(s, e + 1), n, done + [Meaning(x.value)])
            else Ok(done + [Meaning(x.value)], e + 1)
    ensures s[SkipWs(s, i)] != RBRACKET
    decreases x, 1
  {
    EntryRead(s, i, n, x, e);
    ItemTurn(s, i, n, done, x, e, more);
  }

  /** The array loop reads the remaining items, or refuses one of them. */
  lemma {:induction false} ItemsRead(s: CString, i: nat, n: nat, done: seq<Value>, items: Items, end: nat)
    requires ItemsEnd(s, i, items) == Some(end) && ItemsIn(items, Wide)
    ensures ParseItems(s, SkipWs(s, i), n, done) == ItemsResult(done, items, n, end)
    ensures s[SkipWs(s, i)] != RBRACKET
    decreases items
  {
    var e := EntryEnd(s, i, items.item).value;
    ItemRead(s, i, e, n, done, items.item, items.MoreItems?);
    if items.MoreItems? { ItemsRead(s, e + 1, n, done + [Meaning(items.item.value)], items.rest, end); }
  }

  /** The position behind a key and its colon that lie at i. */
  function KeyEnd(s: seq<byte>, i: nat, k: Key): (r: Option<nat>)
    ensures r.Some? ==> i < r.value <= |s|
  {
    Behind(s, i, KeyText(k) + [COLON])
  }

  predicate KeyAccepted(k: Key) {
    CharsIn(k.name, Parson) && NoNul(CharsMeaning(k.name))
  }

  /** Where the name lies between its white space. */
  lemma KeyPlaced(s: CString, i: nat, k: Key, c: nat) returns (p: nat, j: nat)
    requires KeyEnd(s, i, k) == Some(c) && KeyIn(k, Wide)
    ensures j < |s| && At(s, p, QuotedText(k.name)) && j == p + |QuotedText(k.name)|
    ensures SkipWs(s, i) == p && s[p] == QUOTE && SkipWs(s, j) + 1 == c && s[c - 1] == COLON
  {
    AtAppend(s, i, KeyText(k), [COLON]);
    AtByte(s, c - 1, [COLON], 0);
    p, j := Framed(s, i, k.before, QuotedText(k.name), k.after, c - 1);
  }

  lemma KeyParsed(s: CString, p: nat, j: nat, name: Parsed<seq<byte>>)
    requires p < |s| && j < |s| && QuotedString(s, p) == name && (name.Ok? ==> name.end == j)
    requires s[SkipWs(s, j)] == COLON
    ensures ParseKey(s, p) == if name.Ok? && NoNul(name.value) then Ok(name.value, SkipWs(s, j) + 1) else Fail
  {
  }

  /** A key and its colon, with white space around the key. */
  lemma KeyRead(s: CString, i: nat, k: Key, c: nat)
    requires KeyEnd(s, i, k) == Some(c) && KeyIn(k, Wide)
    ensures s[SkipWs(s, i)] == QUOTE
    ensures ParseKey(s, SkipWs(s, i)) == if KeyAccepted(k) then Ok(CharsMeaning(k.name), c) else Fail
  {
    var p, j := KeyPlaced(s, i, k, c);
    QuotedTextRead(s, p, k.name);
    KeyParsed(s, p, j, QuotedString(s, p));
  }

  predicate MemberAccepted(k: Key, x: Entry, n: nat) {
    KeyAccepted(k) && Accepted(x.value, n)
  }

  lemma MemberParsed(s: CString, p: nat, c: nat, n: nat, k: Key, x: Entry, e: nat)
    requires p < |s| && c < |s|
    requires ParseKey(s, p) == if KeyAccepted(k) then Ok(CharsMeaning(k.name), c) else Fail
    requires EntryResult(s, c, n, x, e)
    ensures if MemberAccepted(k, x, n) then
              ParseMember(s, p, n).Ok? && ParseMember(s, p, n).value == MemberMeaning(k, x)
              && SkipWs(s, ParseMember(s, p, n).end) == e
            else ParseMember(s, p, n).Fail?
  {
  }

  /** One turn of the object loop, up to the comma or brace at e. */
  lemma MemberTurn(s: CString, p: nat, n: nat, done: seq<Member>, r: Parsed<Member>, e: nat, more: bool)
    requires p < |s| && e < |s| && s[p] != 0
    requires ParseMember(s, p, n) == r && (r.Ok? ==> SkipWs(s, r.end) == e) && s[e] == if more then COMMA else RBRACE
    ensures ParseMembers(s, p, n, done)
         == if r.Fail? || HasName(done, r.value.name) then Fail
            else if more then ParseMembers(s, SkipWs(s, e + 1), n, done + [r.value])
            else Ok(done + [r.value], e + 1)
  {
  }

  /** The closing brace behind members that lie at i. */
  function MembersEnd(s: seq<byte>, i: nat, ms: Members): Option<nat>
    decreases ms
  {
    match KeyEnd(s, i, ms.key)
    case None => None
    case Some(c) =>
      match EntryEnd(s, c, ms.entry)
      case None => None
      case Some(e) =>
        if e == |s| || s[e] != (if ms.MoreMembers? then COMMA else RBRACE) then None
        else if ms.MoreMembers? then MembersEnd(s, e + 1, ms.rest)
        else Some(e)
  }

  /** Two texts one behind the other, and a comma and a third if there is more. */
  lemma Parts(s: seq<byte>, i: nat, k: seq<byte>, x: seq<byte>, more: bool, t: seq<byte>, end: nat)
    returns (c: nat, e: nat, i': nat)
    requires Behind(s, i, k + x + if more then [COMMA] + t else []) == Some(end) && end < |s|
    ensures Behind(s, i, k) == Some(c) && Behind(s, c, x) == Some(e) && e < |s| && i' == e + 1
    ensures if more then s[e] == COMMA && Behind(s, i', t) == Some(end) else e == end
  {
    e := Cut(s, i, k + x, if more then [COMMA] + t else [], end);
    c := Cut(s, i, k, x, e);
    i' := e + 1;
    if more { CutComma(s, e, t, end); }
  }

  lemma Cut(s: seq<byte>, i: nat, a: seq<byte>, b: seq<byte>, end: nat) returns (j: nat)
    requires Behind(s, i, a + b) == Some(end)
    ensures Behind(s, i, a) == Some(j) && Behind(s, j, b) == Some(end) && j == end - |b|
  {
    j := i + |a|;
    AtAppend(s, i, a, b);
  }

  lemma CutComma(s: seq<byte>, e: nat, t: seq<byte>, end: nat)
    requires Behind(s, e, [COMMA] + t) == Some(end)
    ensures e < |s| && s[e] == COMMA && Behind(s, e + 1, t) == Some(end)
  {
    var j := Cut(s, e, [COMMA], t, end);
    AtByte(s, e, [COMMA], 0);
  }

  lemma MembersSplit(s: seq<byte>, i: nat, ms: Members, end: nat)
    returns (c: nat, e: nat, i': nat, rest: Members)
    requires Behind(s, i, MembersText(ms)) == Some(end) && end < |s|
    ensures KeyEnd(s, i, ms.key) == Some(c) && EntryEnd(s, c, ms.entry) == Some(e) && e < |s| && i' == e + 1
    ensures if ms.MoreMembers? then s[e] == COMMA && rest == ms.rest && Behind(s, i', MembersText(rest)) == Some(end)
            else e == end
  {
    rest := if ms.MoreMembers? then ms.rest else ms;
    c, e, i' := Parts(s, i, KeyText(ms.key) + [COLON], EntryText(ms.entry), ms.MoreMembers?, MembersText(rest), end);
  }

  lemma {:induction false} MembersLayout(s: seq<byte>, i: nat, ms: Members, end: nat)
    requires Behind(s, i, MembersText(ms)) == Some(end) && end < |s| && s[end] == RBRACE
    ensures MembersEnd(s, i, ms) == Some(end)
    decreases ms
  {
    var c, e, i', rest := MembersSplit(s, i, ms, end);
    if ms.MoreMembers? { MembersLayout(s, i', rest, end); }
  }

  /** What the object loop makes of the remaining members. */
  function MembersResult(done: seq<Member>, ms: Members, n: nat, end: nat): Parsed<seq<Member>>
    decreases ms
  {
    var one := done + [MemberMeaning(ms.key, ms.entry)];
    if !MemberAccepted(ms.key, ms.entry, n) || HasName(done, CharsMeaning(ms.key.name)) then Fail
    else if ms.MoreMembers? then MembersResult(one, ms.rest, n, end)
    else Ok(one, end + 1)
  }

  lemma {:induction false} MemberRead(s: CString, i: nat, c: nat, e: nat, n: nat, done: seq<Member>, k: Key, x: Entry,
                                     more: bool)
    requires KeyEnd(s, i, k) == Some(c) && KeyIn(k, Wide)
    requires EntryEnd(s, c, x) == Some(e) && EntryIn(x, Wide)
    requires e < |s| && s[e] == if more then COMMA else RBRACE
    ensures ParseMembers(s, SkipWs(s, i), n, done)
         == if !MemberAccepted(k, x, n) || HasName(done, CharsMeaning(k.name)) then Fail
            else if more then ParseMembers(s, SkipWs(s, e + 1), n, done + [MemberMeaning(k, x)])
            else Ok(done + [MemberMeaning(k, x)], e + 1)
    ensures s[SkipWs(s, i)] == QUOTE
    decreases x, 1
  {
    KeyRead(s, i, k, c);
    EntryRead(s, c, n, x, e);
    MemberParsed(s, SkipWs(s, i), c, n, k, x, e);
    MemberTurn(s, SkipWs(s, i), n, done, ParseMember(s, SkipWs(s, i), n), e, more);
  }

  lemma MembersStep(s: seq<byte>, i: nat, ms: Members, end: nat)
    returns (c: nat, e: nat, i': nat, rest: Members)
    requires MembersEnd(s, i, ms) == Some(end)
    ensures KeyEnd(s, i, ms.key) == Some(c) && EntryEnd(s, c, ms.entry) == Some(e)
    ensures e < |s| && s[e] == if ms.MoreMembers? then COMMA else RBRACE
    ensures i' == e + 1
    ensures if ms.MoreMembers? then rest == ms.rest && MembersEnd(s, i', rest) == Some(end) else e == end
  {
    c := KeyEnd(s, i, ms.key).value;
    e := EntryEnd(s, c, ms.entry).value;
    i' := e + 1;
    rest := if ms.MoreMembers? then ms.rest else ms;
  }

  lemma MembersDone(r: Parsed<seq<Member>>, later: Parsed<seq<Member>>, done: seq<Member>, ms: Members, n: nat,
                    end: nat)
    requires r == if !MemberAccepted(ms.key, ms.entry, n) || HasName(done, CharsMeaning(ms.key.name)) then Fail
                  else if ms.MoreMembers? then later
                  else Ok(done + [MemberMeaning(ms.key, ms.entry)], end + 1)
    requires ms.MoreMembers? ==> later == MembersResult(done + [MemberMeaning(ms.key, ms.entry)], ms.rest, n, end)
    ensures r == MembersResult(done, ms, n, end)
  {
  }

  /** The object loop reads the remaining members, or refuses one of them. */
  lemma {:induction false} MembersRead(s: CString, i: nat, n: nat, done: seq<Member>, ms: Members, end: nat)
    requires MembersEnd(s, i, ms) == Some(end) && MembersIn(ms, Wide)
    ensures ParseMembers(s, SkipWs(s, i), n, done) == MembersResult(done, ms, n, end)
    ensures s[SkipWs(s, i)] == QUOTE
    decreases ms
  {
    var c, e, i', rest := MembersStep(s, i, ms, end);
    var later: Parsed<seq<Member>> := Fail;
    MemberRead(s, i, c, e, n, done, ms.key, ms.entry, ms.MoreMembers?);
    if ms.MoreMembers? {
      var one := done + [MemberMeaning(ms.key, ms.entry)];
      MembersRead(s, i', n, one, rest, end);
      later := ParseMembers(s, SkipWs(s, i'), n, one);
    }
    MembersDone(ParseMembers(s, SkipWs(s, i), n, done), later, done, ms, n, end);
  }

  // ------------------------------- what the loops ask for is what the tree is asked for

  lemma ItemsFitSplit(a: seq<Value>, b: seq<Value>, n: nat)
    ensures JsonWellFormed.ItemsFit(a + b, n) <==> JsonWellFormed.ItemsFit(a, n) && JsonWellFormed.ItemsFit(b, n)
  {
    var all := a + b;
    forall k | 0 <= k < |a| ensures all[k] == a[k] {}
    forall k | 0 <= k < |b| ensures all[|a| + k] == b[k] {}
    if JsonWellFormed.ItemsFit(all, n) {
      forall k | 0 <= k < |b| ensures WellFormed(b[k]) && Fits(b[k], n) { assert b[k] == all[|a| + k]; }
    }
  }

  lemma ItemFits(v: Value, n: nat)
    ensures JsonWellFormed.ItemsFit([v], n) <==> WellFormed(v) && Fits(v, n)
  {
    assert [v][0] == v;
  }

  lemma ItemsMeaningStep(done: seq<Value>, items: Items)
    ensures done + ItemsMeaning(items)
         == if items.MoreItems? then done + [Meaning(items.item.value)] + ItemsMeaning(items.rest)
            else done + [Meaning(items.item.value)]
  {
  }

  lemma {:induction false} ItemsResultIs(done: seq<Value>, items: Items, n: nat, end: nat)
    requires ItemsIn(items, Wide) && JsonWellFormed.ItemsFit(done, n)
    ensures ItemsResult(done, items, n, end)
         == if ItemsIn(items, Parson) && JsonWellFormed.ItemsFit(done + ItemsMeaning(items), n)
            then Ok(done + ItemsMeaning(items), end + 1) else Fail
    decreases items
  {
    var one := done + [Meaning(items.item.value)];
    ItemsMeaningStep(done, items);
    ItemsFitSplit(done, [Meaning(items.item.value)], n);
    ItemFits(Meaning(items.item.value), n);
    if items.MoreItems? {
      ItemsFitSplit(one, ItemsMeaning(items.rest), n);
      if Accepted(items.item.value, n) { ItemsResultIs(one, items.rest, n, end); }
    }
  }

  lemma ArrayAccepted(vs: seq<Value>, n: nat)
    ensures WellFormed(Array(vs)) && Fits(Array(vs), n) <==> n <= MAX_NESTING && JsonWellFormed.ItemsFit(vs, n + 1)
  {
    if n <= MAX_NESTING && JsonWellFormed.ItemsFit(vs, n + 1) { JsonWellFormed.ArrayFits(vs, n); }
    if WellFormed(Array(vs)) && Fits(Array(vs), n) {
      forall k | 0 <= k < |vs| ensures WellFormed(vs[k]) && Fits(vs[k], n + 1) { assert Child(Array(vs), k) == vs[k]; }
    }
  }

  lemma MembersFitPrefix(done: seq<Member>, rest: seq<Member>, n: nat)
    requires JsonWellFormed.MembersFit(done + rest, n)
    ensures JsonWellFormed.MembersFit(done, n)
  {
    var all := done + rest;
    forall j, k | 0 <= j < k < |done| ensures done[j].name != done[k].name {
      assert all[j].name != all[k].name;
    }
    forall k | 0 <= k < |done| ensures NoNul(done[k].name) && WellFormed(done[k].value) && Fits(done[k].value, n) {
      assert all[k] == done[k];
    }
  }

  lemma MembersFitStep(done: seq<Member>, m: Member, n: nat)
    requires JsonWellFormed.MembersFit(done, n)
    ensures JsonWellFormed.MembersFit(done + [m], n)
       <==> NoNul(m.name) && WellFormed(m.value) && Fits(m.value, n) && !HasName(done, m.name)
  {
    var all := done + [m];
    assert all[|done|] == m;
    if JsonWellFormed.MembersFit(all, n) {
      forall k | 0 <= k < |done| ensures done[k].name != m.name { assert all[k].name != all[|done|].name; }
    }
  }

  lemma MembersMeaningStep(done: seq<Member>, ms: Members)
    ensures done + MembersMeaning(ms)
         == if ms.MoreMembers? then done + [MemberMeaning(ms.key, ms.entry)] + MembersMeaning(ms.rest)
            else done + [MemberMeaning(ms.key, ms.entry)]
  {
  }

  lemma {:induction false} MembersResultIs(done: seq<Member>, ms: Members, n: nat, end: nat)
    requires MembersIn(ms, Wide) && JsonWellFormed.MembersFit(done, n)
    ensures MembersResult(done, ms, n, end)
         == if MembersIn(ms, Parson) && JsonWellFormed.MembersFit(done + MembersMeaning(ms), n)
            then Ok(done + MembersMeaning(ms), end + 1) else Fail
    decreases ms
  {
    var m := MemberMeaning(ms.key, ms.entry);
    MembersMeaningStep(done, ms);
    MembersFitStep(done, m, n);
    if ms.MoreMembers? {
      if JsonWellFormed.MembersFit(done + MembersMeaning(ms), n) {
        MembersFitPrefix(done + [m], MembersMeaning(ms.rest), n);
      }
      if JsonWellFormed.MembersFit(done + [m], n) { MembersResultIs(done + [m], ms.rest, n, end); }
    }
  }

  lemma ObjectAccepted(vs: seq<Member>, n: nat)
    ensures WellFormed(Object(vs)) && Fits(Object(vs), n) <==> n <= MAX_NESTING && JsonWellFormed.MembersFit(vs, n + 1)
  {
    if n <= MAX_NESTING && JsonWellFormed.MembersFit(vs, n + 1) { JsonWellFormed.ObjectFits(vs, n); }
    if WellFormed(Object(vs)) && Fits(Object(vs), n) {
      forall k | 0 <= k < |vs| ensures WellFormed(vs[k].value) && Fits(vs[k].value, n + 1) {
        assert Child(Object(vs), k) == vs[k].value;
      }
    }
  }

  lemma EmptyBefore<T>(t: seq<T>)
    ensures [] + t == t
  {
  }

  lemma ArrayIn(items: Items, n: nat)
    requires n <= MAX_NESTING
    ensures Accepted(ArrayOf(items), n)
       <==> ItemsIn(items, Parson) && JsonWellFormed.ItemsFit(ItemsMeaning(items), n + 1)
  {
    ArrayAccepted(ItemsMeaning(items), n);
  }

  lemma ArrayResult(items: Items, n: nat, end: nat)
    requires ItemsIn(items, Wide) && n <= MAX_NESTING
    ensures ItemsResult([], items, n + 1, end)
         == if Accepted(ArrayOf(items), n) then Ok(ItemsMeaning(items), end + 1) else Fail
  {
    EmptyBefore(ItemsMeaning(items));
    ArrayIn(items, n);
    ItemsResultIs([], items, n + 1, end);
  }

  lemma ObjectIn(ms: Members, n: nat)
    requires n <= MAX_NESTING
    ensures Accepted(ObjectOf(ms), n)
       <==> MembersIn(ms, Parson) && JsonWellFormed.MembersFit(MembersMeaning(ms), n + 1)
  {
    ObjectAccepted(MembersMeaning(ms), n);
  }

  lemma ObjectResult(ms: Members, n: nat, end: nat)
    requires MembersIn(ms, Wide) && n <= MAX_NESTING
    ensures MembersResult([], ms, n + 1, end)
         == if Accepted(ObjectOf(ms), n) then Ok(MembersMeaning(ms), end + 1) else Fail
  {
    EmptyBefore(MembersMeaning(ms));
    ObjectIn(ms, n);
    MembersResultIs([], ms, n + 1, end);
  }

  // ------------------------------------------------------------------- values

  /** The text of d at i is read as its meaning when it is accepted, and refused otherwise. */
  predicate Reads(s: CString, i: nat, n: nat, d: Syntax)
    requires i < |s|
  {
    ParseValue(s, i, n) == if Accepted(d, n) then Ok(Meaning(d), i + |SyntaxText(d)|) else Fail
  }

  lemma WordRead(s: CString, i: nat, n: nat, d: Syntax)
    requires d.NullWord? || d.BoolWord?
    requires At(s, i, SyntaxText(d)) && n <= MAX_NESTING
    ensures Reads(s, i, n, d)
  {
    AtByte(s, i, SyntaxText(d), 0);
    assert SkipWs(s, i) == i;
    if d == BoolWord(false) { assert s[i] != JsonText.TRUE_TOKEN[0]; }
  }

  lemma NumberAhead(s: CString, i: nat, n: nat)
    requires i < |s| && (s[i] == MINUS || IsDigit(s[i])) && n <= MAX_NESTING
    ensures ParseValue(s, i, n) == ParseNumber(s, i)
  {
    assert SkipWs(s, i) == i;
  }

  lemma StringAhead(s: CString, i: nat, n: nat)
    requires i < |s| && s[i] == QUOTE && n <= MAX_NESTING
    ensures ParseValue(s, i, n) == ParseString(s, i)
  {
    assert SkipWs(s, i) == i;
  }

  lemma LeafAccepted(d: Syntax, n: nat)
    requires (d.NumberWord? || d.StringWord?) && n <= MAX_NESTING
    ensures Accepted(d, n) <==> SyntaxIn(d, Parson)
  {
  }

  lemma NumberWordRead(s: CString, i: nat, n: nat, d: Syntax)
    requires d.NumberWord? && SyntaxIn(d, Wide) && n <= MAX_NESTING
    requires At(s, i, SyntaxText(d)) && i + |SyntaxText(d)| < |s| && EndsAt(s, i + |SyntaxText(d)|, d)
    ensures Reads(s, i, n, d)
  {
    NumeralRead(s, i, d.numeral);
    LeafAccepted(d, n);
    NumberAhead(s, i, n);
  }

  lemma StringWordRead(s: CString, i: nat, n: nat, d: Syntax)
    requires d.StringWord? && SyntaxIn(d, Wide) && n <= MAX_NESTING
    requires At(s, i, SyntaxText(d))
    ensures i < |s| && Reads(s, i, n, d)
  {
    QuotedTextRead(s, i, d.chars);
    LeafAccepted(d, n);
    StringAhead(s, i, n);
  }

  /** Between brackets only white space. */
  lemma EmptyRead(s: CString, i: nat, n: nat, d: Syntax)
    requires (d.EmptyArray? || d.EmptyObject?) && SyntaxIn(d, Wide) && n <= MAX_NESTING
    requires At(s, i, SyntaxText(d))
    ensures Reads(s, i, n, d)
  {
    var open := if d.EmptyArray? then LBRACKET else LBRACE;
    var close := if d.EmptyArray? then RBRACKET else RBRACE;
    var q := Bracketed(s, i, open, d.gap, close);
    GapRead(s, i + 1, d.gap);
    EmptyParsed(s, i, n, q);
    EmptyAccepted(d, n);
  }

  lemma EmptyParsed(s: CString, i: nat, n: nat, q: nat)
    requires i + 1 < |s| && q == SkipWs(s, i + 1) && n <= MAX_NESTING
    requires (s[i] == LBRACKET && s[q] == RBRACKET) || (s[i] == LBRACE && s[q] == RBRACE)
    ensures ParseValue(s, i, n) == Ok(if s[i] == LBRACKET then Array([]) else Object([]), q + 1)
  {
    assert SkipWs(s, i) == i;
    assert ParseValue(s, i, n) == ParseSwitch(s, i, n);
  }

  lemma EmptyAccepted(d: Syntax, n: nat)
    requires (d.EmptyArray? || d.EmptyObject?) && SyntaxIn(d, Wide) && n <= MAX_NESTING
    ensures Accepted(d, n) && Meaning(d) == if d.EmptyArray? then Array([]) else Object([])
    ensures |SyntaxText(d)| == |d.gap| + 2
  {
  }

  /** From the loop over the items behind an opening bracket to the value. */
  lemma ArrayLooped(s: CString, i: nat, n: nat)
    requires i + 1 < |s| && s[i] == LBRACKET && s[SkipWs(s, i + 1)] != RBRACKET && n <= MAX_NESTING
    ensures ParseValue(s, i, n)
         == match ParseItems(s, SkipWs(s, i + 1), n + 1, [])
            case Fail => Fail
            case Ok(vs, e) => Ok(Array(vs), e)
  {
    assert SkipWs(s, i) == i;
    assert ParseValue(s, i, n) == ParseArray(s, i, n + 1);
  }

  lemma ObjectLooped(s: CString, i: nat, n: nat)
    requires i + 1 < |s| && s[i] == LBRACE && s[SkipWs(s, i + 1)] != RBRACE && n <= MAX_NESTING
    ensures ParseValue(s, i, n)
         == match ParseMembers(s, SkipWs(s, i + 1), n + 1, [])
            case Fail => Fail
            case Ok(ms, e) => Ok(Object(ms), e)
  {
    assert SkipWs(s, i) == i;
    assert ParseValue(s, i, n) == ParseObject(s, i, n + 1);
  }

  lemma ArrayPlaced(s: CString, i: nat, items: Items) returns (q: nat)
    requires At(s, i, SyntaxText(ArrayOf(items)))
    ensures i + 1 < |s| && s[i] == LBRACKET && ItemsEnd(s, i + 1, items) == Some(q)
    ensures q + 1 == i + |SyntaxText(ArrayOf(items))|
  {
    q := Bracketed(s, i, LBRACKET, ItemsText(items), RBRACKET);
    ItemsLayout(s, i + 1, items, q);
  }

  lemma ArrayDone(r: Parsed<Value>, items: Items, n: nat, q: nat)
    requires r == match ItemsResult([], items, n + 1, q)
                  case Fail => Fail
                  case Ok(vs, e) => Ok(Array(vs), e)
    requires ItemsResult([], items, n + 1, q)
          == if Accepted(ArrayOf(items), n) then Ok(ItemsMeaning(items), q + 1) else Fail
    ensures r == if Accepted(ArrayOf(items), n) then Ok(Meaning(ArrayOf(items)), q + 1) else Fail
  {
  }

  lemma {:induction false} ArrayOfRead(s: CString, i: nat, n: nat, items: Items)
    requires At(s, i, SyntaxText(ArrayOf(items))) && ItemsIn(items, Wide) && n <= MAX_NESTING
    ensures Reads(s, i, n, ArrayOf(items))
    decreases ArrayOf(items), 0
  {
    var q := ArrayPlaced(s, i, items);
    ItemsRead(s, i + 1, n + 1, [], items, q);
    ArrayLooped(s, i, n);
    ArrayResult(items, n, q);
    ArrayDone(ParseValue(s, i, n), items, n, q);
  }

  lemma ObjectPlaced(s: CString, i: nat, ms: Members) returns (q: nat)
    requires At(s, i, SyntaxText(ObjectOf(ms)))
    ensures i + 1 < |s| && s[i] == LBRACE && MembersEnd(s, i + 1, ms) == Some(q)
    ensures q + 1 == i + |SyntaxText(ObjectOf(ms))|
  {
    q := Bracketed(s, i, LBRACE, MembersText(ms), RBRACE);
    MembersLayout(s, i + 1, ms, q);
  }

  lemma ObjectDone(r: Parsed<Value>, ms: Members, n: nat, q: nat)
    requires r == match MembersResult([], ms, n + 1, q)
                  case Fail => Fail
                  case Ok(vs, e) => Ok(Object(vs), e)
    requires MembersResult([], ms, n + 1, q)
          == if Accepted(ObjectOf(ms), n) then Ok(MembersMeaning(ms), q + 1) else Fail
    ensures r == if Accepted(ObjectOf(ms), n) then Ok(Meaning(ObjectOf(ms)), q + 1) else Fail
  {
  }

  lemma {:induction false} ObjectOfRead(s: CString, i: nat, n: nat, ms: Members)
    requires At(s, i, SyntaxText(ObjectOf(ms))) && MembersIn(ms, Wide) && n <= MAX_NESTING
    ensures Reads(s, i, n, ObjectOf(ms))
    decreases ObjectOf(ms), 0
  {
    var q := ObjectPlaced(s, i, ms);
    MembersRead(s, i + 1, n + 1, [], ms, q);
    ObjectLooped(s, i, n);
    ObjectResult(ms, n, q);
    ObjectDone(ParseValue(s, i, n), ms, n, q);
  }

  /** A text of the syntax that nothing continues is read to its meaning and its end
      exactly when it is accepted, and refused otherwise. */
  lemma {:induction false} ValueRead(s: CString, i: nat, n: nat, d: Syntax)
    requires At(s, i, SyntaxText(d)) && i + |SyntaxText(d)| < |s| && SyntaxIn(d, Wide)
    requires EndsAt(s, i + |SyntaxText(d)|, d)
    ensures ParseValue(s, i, n) == if Accepted(d, n) then Ok(Meaning(d), i + |SyntaxText(d)|) else Fail
    decreases d, 1
  {
    if n <= MAX_NESTING {
      match d
      case NullWord => WordRead(s, i, n, d);
      case BoolWord(_) => WordRead(s, i, n, d);
      case NumberWord(_) => NumberWordRead(s, i, n, d);
      case StringWord(_) => StringWordRead(s, i, n, d);
      case EmptyArray(_) => EmptyRead(s, i, n, d);
      case EmptyObject(_) => EmptyRead(s, i, n, d);
      case ArrayOf(items) => ArrayOfRead(s, i, n, items);
      case ObjectOf(ms) => ObjectOfRead(s, i, n, ms);
    }
  }

  lemma ValueReadBehind(s: CString, i: nat, n: nat, d: Syntax, e: nat)
    requires Behind(s, i, SyntaxText(d)) == Some(e) && e < |s|
    ensures SyntaxIn(d, Wide) && EndsAt(s, e, d) ==>
              ParseValue(s, i, n) == (if Accepted(d, n) then Ok(Meaning(d), e) else Fail)
  {
    if SyntaxIn(d, Wide) && EndsAt(s, e, d) { ValueRead(s, i, n, d); }
  }

  lemma ReadAsMeant(s: CString, i: nat, n: nat, d: Syntax, v: Value, e: nat)
    requires Behind(s, i, SyntaxText(d)) == Some(e) && e < |s| && Meaning(d) == v
    ensures SyntaxIn(d, Wide) && SyntaxIn(d, Parson) && EndsAt(s, e, d) && WellFormed(v) ==>
              ParseValue(s, i, n) == (if Fits(v, n) then Ok(v, e) else Fail)
  {
    ValueReadBehind(s, i, n, d, e);
  }
}
