/** Every text the parser accepts derives from the syntax: with JsonConformance, exactly
    which texts those are. */
module JsonAcceptance {
  import opened Bytes
  import opened JsonTree
  import opened JsonGrammar
  import opened JsonSyntax
  import opened JsonSyntaxLexical
  import opened JsonConformance
  import DoubleRange
  import JsonText
  import JsonWellFormed

  /** The text from i to e is that of d, and d denotes v. */
  predicate Derived(s: CString, i: nat, e: nat, d: Syntax, v: Value) {
    && i < e < |s| && Behind(s, i, SyntaxText(d)) == Some(e)
    && SyntaxIn(d, Parson) && Meaning(d) == v && EndsAt(s, e, d)
  }

  lemma BooleanDerived(s: CString, i: nat) returns (d: Syntax)
    requires i < |s| && ParseBoolean(s, i).Ok?
    ensures Derived(s, i, ParseBoolean(s, i).end, d, ParseBoolean(s, i).value)
  {
    d := BoolWord(At(s, i, JsonText.TRUE_TOKEN));
  }

  lemma NullDerived(s: CString, i: nat)
    requires i < |s| && ParseToken(s, i, JsonText.NULL_TOKEN, Null).Ok?
    ensures ParseToken(s, i, JsonText.NULL_TOKEN, Null) == Ok(Null, i + 4)
    ensures Derived(s, i, i + 4, NullWord, Null)
  {
  }

  lemma StringDerived(s: CString, i: nat) returns (d: Syntax)
    requires i < |s| && ParseString(s, i).Ok?
    ensures Derived(s, i, ParseString(s, i).end, d, ParseString(s, i).value)
  {
    var ps := QuotedDerived(s, i);
    d := StringWord(ps);
  }

  /** What parse_number_value takes as a number is a numeral of parson's dialect. */
  lemma NumberTaken(s: CString, i: nat, e: nat) returns (n: Numeral)
    requires i < |s| && (s[i] == MINUS || IsDigit(s[i])) && Strtod(s, i) == Decimals(e)
    requires StrtodErrno(s, i) == NoError && IsDecimal(s[i..e])
    ensures i < e < |s| && Behind(s, i, NumeralText(n)) == Some(e) && NumeralIn(n, Parson) && !Continues(s, e, n)
    ensures s[i..e] == NumeralText(n) && NumberOf(NumeralText(n)) == NumeralMeaning(n)
  {
    n := NumeralDerived(s, i, e);
    DecimalIsPlain(n);
    NumeralRange(s, i, e, n);
    NumberOfNumeral(n);
  }

  lemma NumberDerived(s: CString, i: nat) returns (d: Syntax)
    requires i < |s| && (s[i] == MINUS || IsDigit(s[i]))
    requires ParseNumber(s, i).Ok? && ParseNumber(s, i).end > i
    ensures Derived(s, i, ParseNumber(s, i).end, d, ParseNumber(s, i).value)
  {
    var e := ParseNumber(s, i).end;
    var n := NumberTaken(s, i, e);
    d := NumberWord(n);
    NumberParsed(s, i, e, NumeralText(n));
  }

  lemma EmptyDerived(s: CString, i: nat, q: nat, open: byte, close: byte)
    requires i + 1 < |s| && q == SkipWs(s, i + 1) && s[i] == open && s[q] == close
    ensures Behind(s, i, [open] + s[i + 1..q] + [close]) == Some(q + 1) && IsGap(s[i + 1..q], Parson)
  {
    GapDerived(s, i + 1);
    Sliced(s, i + 1, q);
    Bracketing(s, i, open, s[i + 1..q], q, close);
  }

  /** Only a minus sign that starts no number leaves the cursor where it was. */
  lemma StandsStill(s: CString, j: nat, n: nat)
    requires j < |s| && ParseSwitch(s, j, n).Ok?
    ensures ParseSwitch(s, j, n).end > j || s[j] == MINUS
  {
    if IsDigit(s[j]) {
      assert ParseSwitch(s, j, n) == ParseNumber(s, j);
      JsonWellFormed.LoneMinusStandsStill(s, j);
    }
  }

  lemma FramedAgain(s: CString, i: nat, p: nat, t: seq<byte>, j: nat, k: nat)
    requires i <= p && Behind(s, p, t) == Some(j) && j <= k <= |s|
    ensures Behind(s, i, s[i..p] + t + s[j..k]) == Some(k)
  {
    Sliced(s, i, p);
    Sliced(s, j, k);
    Glued(s, i, s[i..p], p, t, j);
    Glued(s, i, s[i..p] + t, j, s[j..k], k);
  }

  /** A value that a comma or a bracket follows, with the white space around it. */
  lemma {:induction false} EntryDerived(s: CString, i: nat, n: nat, k: nat) returns (x: Entry)
    requires i < |s| && ParseValue(s, i, n).Ok? && k == SkipWs(s, ParseValue(s, i, n).end)
    requires s[k] in {COMMA, RBRACKET, RBRACE}
    ensures i < k && EntryEnd(s, i, x) == Some(k) && EntryIn(x, Parson)
    ensures Meaning(x.value) == ParseValue(s, i, n).value
    decreases |s| - i, 1
  {
    var p := SkipWs(s, i);
    var j := ParseValue(s, i, n).end;
    StandsStill(s, p, n);
    var d := SwitchDerived(s, p, n);
    x := Entry(s[i..p], d, s[j..k]);
    GapDerived(s, i);
    GapDerived(s, j);
    FramedAgain(s, i, p, SyntaxText(d), j, k);
  }

  /** Parts, the other way round. */
  lemma PartsGlued(s: seq<byte>, i: nat, k: seq<byte>, c: nat, x: seq<byte>, e: nat, more: bool, t: seq<byte>, q: nat)
    requires Behind(s, i, k) == Some(c) && Behind(s, c, x) == Some(e) && e < |s|
    requires if more then s[e] == COMMA && Behind(s, e + 1, t) == Some(q) else q == e
    ensures Behind(s, i, k + x + if more then [COMMA] + t else []) == Some(q)
  {
    Glued(s, i, k, c, x, e);
    if more {
      OneByte(s, e);
      Glued(s, e, [COMMA], e + 1, t, q);
      Glued(s, i, k + x, e, [COMMA] + t, q);
    } else {
      assert k + x + [] == k + x;
    }
  }

  /** One turn of the array loop: the value, and, at i', where the next item is looked for. */
  lemma ItemParsed(s: CString, i: nat, n: nat, done: seq<Value>)
    returns (v: Value, k: nat, more: bool, i': nat, one: seq<Value>)
    requires i < |s| && ParseItems(s, SkipWs(s, i), n, done).Ok?
    ensures ParseValue(s, i, n).Ok? && v == ParseValue(s, i, n).value && k == SkipWs(s, ParseValue(s, i, n).end)
    ensures s[k] == (if more then COMMA else RBRACKET) && one == done + [v] && i' == k + 1
    ensures if more then i' < |s| && ParseItems(s, SkipWs(s, i), n, done) == ParseItems(s, SkipWs(s, i'), n, one)
            else ParseItems(s, SkipWs(s, i), n, done) == Ok(one, i')
  {
    assert SkipWs(s, SkipWs(s, i)) == SkipWs(s, i);
    ParseValueSkips(s, SkipWs(s, i), i, n);
    v := ParseValue(s, i, n).value;
    k := SkipWs(s, ParseValue(s, i, n).end);
    more := s[k] == COMMA;
    i' := k + 1;
    one := done + [v];
  }

  lemma ItemsGlued(s: seq<byte>, i: nat, k: nat, more: bool, x: Entry, rest: Items, q: nat,
                   done: seq<Value>) returns (items: Items)
    requires EntryEnd(s, i, x) == Some(k) && k < |s|
    requires if more then s[k] == COMMA && Behind(s, k + 1, ItemsText(rest)) == Some(q) else q == k
    ensures Behind(s, i, ItemsText(items)) == Some(q)
    ensures done + ItemsMeaning(items)
         == if more then done + [Meaning(x.value)] + ItemsMeaning(rest) else done + [Meaning(x.value)]
    ensures EntryIn(x, Parson) && (more ==> ItemsIn(rest, Parson)) ==> ItemsIn(items, Parson)
  {
    items := if more then MoreItems(x, rest) else LastItem(x);
    Sliced(s, i, i);
    assert s[i..i] == [];
    PartsGlued(s, i, [], i, EntryText(x), k, more, ItemsText(rest), q);
    EmptyBefore(EntryText(x));
    ItemsMeaningStep(done, items);
  }

  /** What the array loop accepts derives from the syntax, up to the bracket at q. */
  lemma {:induction false} ItemsDerived(s: CString, i: nat, n: nat, done: seq<Value>) returns (items: Items, q: nat)
    requires i < |s| && ParseItems(s, SkipWs(s, i), n, done).Ok?
    ensures q < |s| && s[q] == RBRACKET && ItemsIn(items, Parson) && Behind(s, i, ItemsText(items)) == Some(q)
    ensures ParseItems(s, SkipWs(s, i), n, done) == Ok(done + ItemsMeaning(items), q + 1)
    decreases |s| - i, 2
  {
    var v, k, more, i', one := ItemParsed(s, i, n, done);
    var x := EntryDerived(s, i, n, k);
    var rest;
    if more {
      rest, q := ItemsDerived(s, i', n, one);
    } else {
      rest, q := LastItem(x), k;
    }
    items := ItemsGlued(s, i, k, more, x, rest, q, done);
  }

  lemma KeyDerived(s: CString, i: nat) returns (k: Key)
    requires i < |s| && ParseKey(s, SkipWs(s, i)).Ok?
    ensures KeyEnd(s, i, k) == Some(ParseKey(s, SkipWs(s, i)).end) && KeyIn(k, Parson)
    ensures CharsMeaning(k.name) == ParseKey(s, SkipWs(s, i)).value
  {
    var p := SkipWs(s, i);
    var j := QuotedString(s, p).end;
    var c := SkipWs(s, j);
    var ps := QuotedDerived(s, p);
    k := Key(s[i..p], ps, s[j..c]);
    GapDerived(s, i);
    GapDerived(s, j);
    FramedAgain(s, i, p, QuotedText(ps), j, c);
    OneByte(s, c);
    Glued(s, i, KeyText(k), c, [COLON], c + 1);
  }

  /** One turn of the object loop. */
  lemma MemberTaken(s: CString, i: nat, n: nat, done: seq<Member>)
    returns (m: Member, c: nat, k: nat, more: bool, i': nat, one: seq<Member>)
    requires i < |s| && ParseMembers(s, SkipWs(s, i), n, done).Ok?
    ensures ParseKey(s, SkipWs(s, i)) == Ok(m.name, c) && i < c < |s|
    ensures ParseValue(s, c, n).Ok? && m.value == ParseValue(s, c, n).value && k == SkipWs(s, ParseValue(s, c, n).end)
    ensures s[k] == (if more then COMMA else RBRACE) && one == done + [m] && i' == k + 1
    ensures if more then i' < |s| && ParseMembers(s, SkipWs(s, i), n, done) == ParseMembers(s, SkipWs(s, i'), n, one)
            else ParseMembers(s, SkipWs(s, i), n, done) == Ok(one, i')
  {
    var r := ParseMember(s, SkipWs(s, i), n);
    m := r.value;
    c := ParseKey(s, SkipWs(s, i)).end;
    k := SkipWs(s, r.end);
    more := s[k] == COMMA;
    i' := k + 1;
    one := done + [m];
  }

  lemma MembersGlued(s: seq<byte>, i: nat, c: nat, k: nat, more: bool, key: Key, x: Entry, rest: Members, q: nat,
                     done: seq<Member>) returns (ms: Members)
    requires KeyEnd(s, i, key) == Some(c) && EntryEnd(s, c, x) == Some(k) && k < |s|
    requires if more then s[k] == COMMA && Behind(s, k + 1, MembersText(rest)) == Some(q) else q == k
    ensures Behind(s, i, MembersText(ms)) == Some(q)
    ensures done + MembersMeaning(ms)
         == if more then done + [MemberMeaning(key, x)] + MembersMeaning(rest) else done + [MemberMeaning(key, x)]
    ensures KeyIn(key, Parson) && EntryIn(x, Parson) && (more ==> MembersIn(rest, Parson)) ==> MembersIn(ms, Parson)
  {
    ms := if more then MoreMembers(key, x, rest) else LastMember(key, x);
    PartsGlued(s, i, KeyText(key) + [COLON], c, EntryText(x), k, more, MembersText(rest), q);
    MembersMeaningStep(done, ms);
  }

  /** What the object loop accepts derives from the syntax, up to the brace at q. */
  lemma {:induction false} MembersDerived(s: CString, i: nat, n: nat, done: seq<Member>) returns (ms: Members, q: nat)
    requires i < |s| && ParseMembers(s, SkipWs(s, i), n, done).Ok?
    ensures q < |s| && s[q] == RBRACE && MembersIn(ms, Parson) && Behind(s, i, MembersText(ms)) == Some(q)
    ensures ParseMembers(s, SkipWs(s, i), n, done) == Ok(done + MembersMeaning(ms), q + 1)
    decreases |s| - i, 2
  {
    var m, c, k, more, i', one := MemberTaken(s, i, n, done);
    var key := KeyDerived(s, i);
    var x := EntryDerived(s, c, n, k);
    var rest;
    if more {
      rest, q := MembersDerived(s, i', n, one);
    } else {
      rest, q := LastMember(key, x), k;
    }
    ms := MembersGlued(s, i, c, k, more, key, x, rest, q, done);
  }

  lemma ArrayOpened(s: CString, i: nat, n: nat) returns (q: nat)
    requires i < |s| && s[i] == LBRACKET && ParseArray(s, i, n).Ok?
    ensures i + 1 < |s| && q == SkipWs(s, i + 1)
    ensures if s[q] == RBRACKET then ParseArray(s, i, n) == Ok(Array([]), q + 1)
            else ParseItems(s, q, n, []).Ok?
                 && ParseArray(s, i, n) == Ok(Array(ParseItems(s, q, n, []).value), ParseItems(s, q, n, []).end)
  {
    q := SkipWs(s, i + 1);
  }

  lemma ObjectOpened(s: CString, i: nat, n: nat) returns (q: nat)
    requires i < |s| && s[i] == LBRACE && ParseObject(s, i, n).Ok?
    ensures i + 1 < |s| && q == SkipWs(s, i + 1)
    ensures if s[q] == RBRACE then ParseObject(s, i, n) == Ok(Object([]), q + 1)
            else ParseMembers(s, q, n, []).Ok?
                 && ParseObject(s, i, n) == Ok(Object(ParseMembers(s, q, n, []).value), ParseMembers(s, q, n, []).end)
  {
    q := SkipWs(s, i + 1);
  }

  /** d is a container whose text lies between i and e. */
  predicate Contained(s: CString, i: nat, e: nat, d: Syntax) {
    i < e < |s| && Behind(s, i, SyntaxText(d)) == Some(e) && SyntaxIn(d, Parson) && !d.NumberWord?
  }

  lemma ArrayGlued(s: CString, i: nat, items: Items, q: nat) returns (d: Syntax)
    requires i < |s| && s[i] == LBRACKET && q < |s| && s[q] == RBRACKET
    requires Behind(s, i + 1, ItemsText(items)) == Some(q)
    ensures Behind(s, i, SyntaxText(d)) == Some(q + 1) && !d.NumberWord?
    ensures ItemsIn(items, Parson) ==> SyntaxIn(d, Parson)
    ensures Meaning(d) == Array([] + ItemsMeaning(items))
  {
    d := ArrayOf(items);
    EmptyBefore(ItemsMeaning(items));
    Bracketing(s, i, LBRACKET, ItemsText(items), q, RBRACKET);
  }

  lemma ObjectGlued(s: CString, i: nat, ms: Members, q: nat) returns (d: Syntax)
    requires i < |s| && s[i] == LBRACE && q < |s| && s[q] == RBRACE
    requires Behind(s, i + 1, MembersText(ms)) == Some(q)
    ensures Behind(s, i, SyntaxText(d)) == Some(q + 1) && !d.NumberWord?
    ensures MembersIn(ms, Parson) ==> SyntaxIn(d, Parson)
    ensures Meaning(d) == Object([] + MembersMeaning(ms))
  {
    d := ObjectOf(ms);
    EmptyBefore(MembersMeaning(ms));
    Bracketing(s, i, LBRACE, MembersText(ms), q, RBRACE);
  }

  lemma EmptyArrayDerived(s: CString, i: nat, q: nat) returns (d: Syntax)
    requires i + 1 < |s| && q == SkipWs(s, i + 1) && s[i] == LBRACKET && s[q] == RBRACKET
    ensures Behind(s, i, SyntaxText(d)) == Some(q + 1) && !d.NumberWord?
    ensures SyntaxIn(d, Parson) && Meaning(d) == Array([])
  {
    d := EmptyArray(s[i + 1..q]);
    EmptyDerived(s, i, q, LBRACKET, RBRACKET);
  }

  lemma EmptyObjectDerived(s: CString, i: nat, q: nat) returns (d: Syntax)
    requires i + 1 < |s| && q == SkipWs(s, i + 1) && s[i] == LBRACE && s[q] == RBRACE
    ensures Behind(s, i, SyntaxText(d)) == Some(q + 1) && !d.NumberWord?
    ensures SyntaxIn(d, Parson) && Meaning(d) == Object([])
  {
    d := EmptyObject(s[i + 1..q]);
    EmptyDerived(s, i, q, LBRACE, RBRACE);
  }

  lemma {:induction false} ArrayDerived(s: CString, i: nat, n: nat) returns (d: Syntax, e: nat)
    requires i < |s| && s[i] == LBRACKET && ParseArray(s, i, n).Ok?
    ensures ParseArray(s, i, n) == Ok(Meaning(d), e) && Contained(s, i, e, d)
    decreases |s| - i, 0, 0
  {
    var q := ArrayOpened(s, i, n);
    if s[q] == RBRACKET {
      d := EmptyArrayDerived(s, i, q);
      e := q + 1;
    } else {
      var items, q' := ItemsDerived(s, i + 1, n, []);
      d := ArrayGlued(s, i, items, q');
      e := q' + 1;
    }
  }

  lemma {:induction false} ObjectDerived(s: CString, i: nat, n: nat) returns (d: Syntax, e: nat)
    requires i < |s| && s[i] == LBRACE && ParseObject(s, i, n).Ok?
    ensures ParseObject(s, i, n) == Ok(Meaning(d), e) && Contained(s, i, e, d)
    decreases |s| - i, 0, 0
  {
    var q := ObjectOpened(s, i, n);
    if s[q] == RBRACE {
      d := EmptyObjectDerived(s, i, q);
      e := q + 1;
    } else {
      var ms, q' := MembersDerived(s, i + 1, n, []);
      d := ObjectGlued(s, i, ms, q');
      e := q' + 1;
    }
  }

  /** What the switch of parse_value accepts, if it moves on, derives from the syntax. */
  lemma {:induction false} SwitchDerived(s: CString, i: nat, n: nat) returns (d: Syntax)
    requires i < |s| && ParseSwitch(s, i, n).Ok? && ParseSwitch(s, i, n).end > i
    ensures Derived(s, i, ParseSwitch(s, i, n).end, d, ParseSwitch(s, i, n).value)
    decreases |s| - i, 0, 1
  {
    if s[i] == LBRACE {
      var e;
      d, e := ObjectDerived(s, i, n + 1);
    } else if s[i] == LBRACKET {
      var e;
      d, e := ArrayDerived(s, i, n + 1);
    } else if s[i] == QUOTE {
      d := StringDerived(s, i);
    } else if s[i] == 'f' as int || s[i] == 't' as int {
      d := BooleanDerived(s, i);
    } else if s[i] == MINUS || IsDigit(s[i]) {
      d := NumberDerived(s, i);
    } else {
      NullDerived(s, i);
      d := NullWord;
    }
  }

  // ------------------------------------------------------------------ whole texts

  /** Where json_parse_string starts: behind a byte order mark, if there is one. */
  function Start(s: CString): (b: nat)
    ensures b < |s| && Parse(s) == ParseValue(s, b, 0)
  {
    if At(s, 0, [0xEF, 0xBB, 0xBF]) then
      assert s[..3] == [0xEF, 0xBB, 0xBF];
      3
    else 0
  }

  /** The value at the head of the text: white space and d, up to e. */
  predicate Headed(s: CString, before: seq<byte>, d: Syntax, e: nat) {
    && At(s, Start(s), before + SyntaxText(d)) && e == Start(s) + |before + SyntaxText(d)| < |s|
    && IsGap(before, Wide) && SyntaxIn(d, Wide) && EndsAt(s, e, d)
  }

  /** A minus sign at the head of the text that starts no number. */
  predicate LoneMinus(s: CString, e: nat) {
    && e == SkipWs(s, Start(s)) && s[e] == MINUS
    && !SpecialAhead(s, e + 1) && !IsDigit(s[e + 1]) && !(s[e + 1] == DOT && IsDigit(s[e + 2]))
  }

  lemma HeadPlaced(s: CString, before: seq<byte>, d: Syntax, e: nat) returns (p: nat)
    requires Headed(s, before, d, e)
    ensures p < e < |s| && Behind(s, p, SyntaxText(d)) == Some(e) && SkipWs(s, Start(s)) == p == SkipWs(s, p)
  {
    SyntaxStart(d);
    p := PlacedBehind(s, Start(s), before, SyntaxText(d), e);
  }

  lemma PlacedBehind(s: CString, b: nat, before: seq<byte>, t: seq<byte>, e: nat) returns (p: nat)
    requires At(s, b, before + t) && e == b + |before + t| < |s| && t != [] && !IsSpace(t[0])
    requires IsGap(before, Wide)
    ensures p < e < |s| && Behind(s, p, t) == Some(e) && SkipWs(s, b) == p == SkipWs(s, p)
  {
    p := b + |before|;
    AtAppend(s, b, before, t);
    AtByte(s, p, t, 0);
    GapRead(s, b, before);
  }

  /** A text headed by a value is read as its meaning, up to its end, exactly when the
      value is accepted; whatever follows is not looked at. */
  lemma HeadRead(s: CString, before: seq<byte>, d: Syntax, e: nat)
    requires Headed(s, before, d, e)
    ensures Parse(s) == if Accepted(d, 0) then Ok(Meaning(d), e) else Fail
  {
    var p := HeadPlaced(s, before, d, e);
    ValueReadBehind(s, p, 0, d, e);
    ParseValueSkips(s, Start(s), p, 0);
  }

  lemma LoneMinusRead(s: CString, e: nat)
    requires LoneMinus(s, e)
    ensures Parse(s) == Ok(Number(false, 0), e)
  {
    JsonWellFormed.LoneMinusStandsStill(s, e);
    NumberAhead(s, e, 0);
    assert SkipWs(s, e) == e;
    ParseValueSkips(s, Start(s), e, 0);
  }

  /** An accepted text is headed by an accepted value, or by a lone minus sign. */
  lemma HeadDerived(s: CString) returns (before: seq<byte>, d: Syntax)
    requires Parse(s).Ok? && !LoneMinus(s, Parse(s).end)
    ensures Headed(s, before, d, Parse(s).end) && Accepted(d, 0) && Meaning(d) == Parse(s).value
  {
    var b := Start(s);
    var p := SkipWs(s, b);
    var Ok(v, e) := Parse(s);
    assert Parse(s) == ParseSwitch(s, p, 0);
    StandsStill(s, p, 0);
    if e == p {
      NumberAhead(s, p, 0);
      JsonWellFormed.LoneMinusStandsStill(s, p);
      assert false;
    }
    before := s[b..p];
    d := SwitchDerived(s, p, 0);
    GapDerived(s, b);
    Sliced(s, b, p);
    Glued(s, b, before, p, SyntaxText(d), e);
    Widen(d, Parson);
    JsonWellFormed.ParsedWellFormed(s, b, 0);
  }

  /** Exactly which texts are accepted, as what, and up to where. */
  lemma AcceptedTexts(s: CString, v: Value, e: nat)
    ensures Parse(s) == Ok(v, e)
       <==> || (exists before, d :: Headed(s, before, d, e) && Accepted(d, 0) && Meaning(d) == v)
            || (LoneMinus(s, e) && v == Number(false, 0))
  {
    if Parse(s) == Ok(v, e) {
      if LoneMinus(s, e) { LoneMinusRead(s, e); } else { var before, d := HeadDerived(s); }
    }
    if LoneMinus(s, e) { LoneMinusRead(s, e); }
    forall before, d | Headed(s, before, d, e) && Accepted(d, 0) && Meaning(d) == v
      ensures Parse(s) == Ok(v, e)
    {
      HeadRead(s, before, d, e);
    }
  }

  /** Every text of RFC 8259 is parsed to its tree, unless it holds half a surrogate pair,
      an exponent right behind a zero or a number out of the range of a double, repeats a
      key, has a key with a NUL, or is nested deeper than MAX_NESTING; then it is refused. */
  lemma Rfc8259Parsed(s: CString, x: Entry)
    requires EntryIn(x, Rfc8259) && s == EntryText(x) + [0]
    ensures Parse(s) == if Accepted(x.value, 0) then Ok(Meaning(x.value), |x.before + SyntaxText(x.value)|) else Fail
  {
    var e := |x.before + SyntaxText(x.value)|;
    Widen(x.value, Rfc8259);
    SyntaxStart(x.value);
    assert s[0] == if x.before == [] then SyntaxText(x.value)[0] else x.before[0];
    assert Start(s) == 0 by { if At(s, 0, [0xEF, 0xBB, 0xBF]) { AtByte(s, 0, [0xEF, 0xBB, 0xBF], 0); } }
    assert s[..e] == x.before + SyntaxText(x.value);
    assert s[e] == if x.after == [] then 0 else x.after[0];
    DelimiterEnds(s, e, x.value);
    HeadRead(s, x.before, x.value, e);
  }

  /** The numeral with the digit d, no fraction, and this exponent. */
  function PowerOfTen(d: byte, sign: seq<byte>, digits: seq<byte>): Entry {
    Entry([], NumberWord(Numeral(false, [d], None, Some(Exponent('e' as int, sign, digits)))), [])
  }

  lemma PowerOfTenText(d: byte, sign: seq<byte>, digits: seq<byte>)
    requires IsDigit(d) && AllDigits(digits) && digits != [] && sign in {[], [MINUS]}
    ensures EntryIn(PowerOfTen(d, sign, digits), Rfc8259)
    ensures EntryText(PowerOfTen(d, sign, digits)) == [d, 'e' as int] + sign + digits
  {
    assert NumeralText(PowerOfTen(d, sign, digits).value.numeral) == [d, 'e' as int] + sign + digits;
  }

  lemma PowerRefused(s: CString, d: byte, sign: seq<byte>, digits: seq<byte>) returns (x: Entry)
    requires IsDigit(d) && AllDigits(digits) && digits != [] && sign in {[], [MINUS]}
    requires s == [d, 'e' as int] + sign + digits + [0]
    requires d == ZERO || DigitsErrno([d], [], ExponentOf(Some(Exponent('e' as int, sign, digits)))) == RangeError
    ensures EntryIn(x, Rfc8259) && s == EntryText(x) + [0] && Parse(s).Fail?
  {
    x := PowerOfTen(d, sign, digits);
    PowerOfTenText(d, sign, digits);
    Rfc8259Parsed(s, x);
  }

  /** A text of RFC 8259 that is refused: zero with an exponent. */
  lemma ZeroExponentRefused(s: CString) returns (x: Entry)
    requires s == [ZERO, 'e' as int, ZERO, 0]
    ensures EntryIn(x, Rfc8259) && s == EntryText(x) + [0] && Parse(s).Fail?
  {
    x := PowerRefused(s, ZERO, [], [ZERO]);
  }

  const ONE: byte := ZERO + 1
  const FOUR: byte := ZERO + 4

  lemma FourHundred() returns (t: seq<byte>)
    ensures t == [FOUR, ZERO, ZERO] && AllDigits(t) && DigitsValue(t) == 400
    ensures AllDigits([ONE]) && DigitsValue([ONE]) == 1
  {
    t := [FOUR, ZERO, ZERO];
    assert t[..2] == [FOUR, ZERO];
    assert [FOUR, ZERO][..1] == [FOUR];
    assert [FOUR][..0] == [] && [ONE][..0] == [];
    assert DigitsOnto(0, [FOUR]) == 4 && DigitsOnto(0, [FOUR, ZERO]) == 40;
  }

  lemma OneOutOfRange() returns (t: seq<byte>)
    ensures t == [FOUR, ZERO, ZERO] && AllDigits(t) && DigitsValue(t) == 400 && AllDigits([ONE])
    ensures DigitsErrno([ONE], [], 400) == RangeError && DigitsErrno([ONE], [], -400) == RangeError
  {
    t := FourHundred();
    DoubleRange.TooLarge(DoubleRange.DOUBLE, 1, 400);
    DoubleRange.TooSmall(DoubleRange.DOUBLE, -400);
  }

  /** Another one: 1e400 is too large for a double. */
  lemma TooLargeRefused(s: CString) returns (x: Entry)
    requires s == [ONE, 'e' as int, FOUR, ZERO, ZERO, 0]
    ensures EntryIn(x, Rfc8259) && s == EntryText(x) + [0] && Parse(s).Fail?
  {
    var t := OneOutOfRange();
    x := PowerRefused(s, ONE, [], t);
  }

  /** And 1e-400 is too small. */
  lemma TooSmallRefused(s: CString) returns (x: Entry)
    requires s == [ONE, 'e' as int, MINUS, FOUR, ZERO, ZERO, 0]
    ensures EntryIn(x, Rfc8259) && s == EntryText(x) + [0] && Parse(s).Fail?
  {
    var t := OneOutOfRange();
    x := PowerRefused(s, ONE, [MINUS], t);
  }

  // --------------------------------------------------- which numerals are in range

  lemma {:induction false} DigitsJoined(v: nat, a: seq<byte>, b: seq<byte>)
    requires AllDigits(a) && AllDigits(b)
    ensures AllDigits(a + b) && DigitsOnto(DigitsOnto(v, a), b) == DigitsOnto(v, a + b)
    decreases |b|
  {
    if b == [] {
      assert a + b == a;
    } else {
      DigitsJoined(v, a, b[..|b| - 1]);
      assert (a + b)[..|a + b| - 1] == a + b[..|b| - 1];
    }
  }

  /** A numeral without superfluous zeros whose digits, read without the point, make at
      most 2^53, and whose exponent, less the digits behind the point, is between -306 and
      291, is accepted. */
  lemma ModerateAccepted(n: Numeral, e: int)
    requires NumeralIn(n, Wide) && PlainZero(n)
    requires n.exp.None? ==> e == 0
    requires n.exp.Some? ==> var x := n.exp.value;
      e == if x.sign == ['-' as int] then 0 - DigitsValue(x.digits) else DigitsValue(x.digits)
    requires var frac := if n.frac.Some? then n.frac.value else [];
      && AllDigits(n.whole + frac) && DigitsValue(n.whole + frac) <= MAX_EXACT
      && -306 <= e - |frac| <= 291
    ensures NumeralIn(n, Parson)
  {
    var frac := FractionDigits(n);
    DigitsJoined(0, n.whole, frac);
    DoubleRange.Pow53();
    DoubleRange.ModerateInRange(DigitsValue(n.whole + frac), e - |frac|, 102, 97);
  }

  const TENTH := Numeral(false, [ZERO], Some([ONE]), None)

  /** Such as 0.1. */
  lemma TenthParsed(s: CString)
    requires s == [ZERO, DOT, ONE, 0]
    ensures Parse(s) == Ok(Real([ZERO, DOT, ONE]), 3)
  {
    var x := TenthEntry();
    assert s == EntryText(x) + [0];
    Rfc8259Parsed(s, x);
  }

  lemma TenthEntry() returns (x: Entry)
    ensures EntryIn(x, Rfc8259) && EntryText(x) == x.before + SyntaxText(x.value) == [ZERO, DOT, ONE]
    ensures Accepted(x.value, 0) && Meaning(x.value) == Real([ZERO, DOT, ONE])
  {
    TenthInRange();
    x := Entry([], NumberWord(TENTH), []);
  }

  lemma TenthInRange()
    ensures NumeralIn(TENTH, Parson) && NumeralIn(TENTH, Rfc8259) && NumeralText(TENTH) == [ZERO, DOT, ONE]
  {
    DigitsJoined(0, [ZERO], [ONE]);
    assert [ZERO][..0] == [] && [ONE][..0] == [];
    assert DigitsOnto(0, [ZERO]) == 0 && DigitsOnto(0, [ONE]) == 1;
    ModerateAccepted(TENTH, 0);
  }
}
