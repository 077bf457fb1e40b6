/** What every tree the parser returns satisfies, and where the parser does not move on. */
module JsonWellFormed {
  import opened Bytes
  import opened JsonTree
  import opened JsonGrammar

  // ------------------------------------------------------------------------ nesting

  /** How many containers are around the deepest node of a tree. */
  function Depth(v: Value): nat
    decreases v, Count(v) + 1
  {
    if Count(v) == 0 then 0 else 1 + Deepest(v, 0)
  }

  /** The depth of its deepest child from the k-th on. */
  function Deepest(v: Value, k: nat): nat
    requires k <= Count(v)
    decreases v, Count(v) - k
  {
    if k == Count(v) then 0
    else
      var d, rest := Depth(Child(v, k)), Deepest(v, k + 1);
      if d > rest then d else rest
  }

  lemma {:induction false} DeepestAtMost(v: Value, k: nat, m: nat)
    requires k <= Count(v)
    ensures Deepest(v, k) <= m <==> forall j :: k <= j < Count(v) ==> Depth(Child(v, j)) <= m
    decreases Count(v) - k
  {
    if k < Count(v) { DeepestAtMost(v, k + 1, m); }
  }

  /** A tree below n containers fits exactly when no node has more than 2048 around it. */
  lemma {:induction false} FitsIsDepth(v: Value, n: nat)
    ensures Fits(v, n) <==> n + Depth(v) <= 2048
    decreases v
  {
    forall k | 0 <= k < Count(v) ensures Fits(Child(v, k), n + 1) <==> n + 1 + Depth(Child(v, k)) <= 2048 {
      FitsIsDepth(Child(v, k), n + 1);
    }
    if n < 2048 { DeepestAtMost(v, 0, 2047 - n); }
  }

  // ----------------------------------------- what the parser returns is well formed

  lemma {:induction false} ParsedWellFormed(s: CString, i: nat, n: nat)
    requires i < |s| && ParseValue(s, i, n).Ok?
    ensures WellFormed(ParseValue(s, i, n).value) && Fits(ParseValue(s, i, n).value, n)
    decreases |s| - i, 1
  {
    var j := SkipWs(s, i);
    assert ParseValue(s, i, n) == ParseSwitch(s, j, n);
    if s[j] == LBRACE {
      var k := ObjectRead(s, j, n);
      if s[k] == RBRACE {
        ObjectFits([], n);
      } else {
        ParsedMembersWellFormed(s, k, n + 1, []);
        ObjectFits(ParseMembers(s, k, n + 1, []).value, n);
      }
    } else if s[j] == LBRACKET {
      var k := ArrayRead(s, j, n);
      if s[k] == RBRACKET {
        ArrayFits([], n);
      } else {
        ParsedItemsWellFormed(s, k, n + 1, []);
        ArrayFits(ParseItems(s, k, n + 1, []).value, n);
      }
    }
  }

  lemma ObjectRead(s: CString, j: nat, n: nat) returns (k: nat)
    requires j < |s| && s[j] == LBRACE && ParseSwitch(s, j, n).Ok?
    ensures j < k < |s|
    ensures s[k] == RBRACE ==> ParseSwitch(s, j, n).value == Object([])
    ensures s[k] != RBRACE ==> ParseMembers(s, k, n + 1, []).Ok?
    ensures s[k] != RBRACE ==> ParseSwitch(s, j, n).value == Object(ParseMembers(s, k, n + 1, []).value)
  {
    k := SkipWs(s, j + 1);
    assert ParseSwitch(s, j, n) == ParseObject(s, j, n + 1);
  }

  lemma ArrayRead(s: CString, j: nat, n: nat) returns (k: nat)
    requires j < |s| && s[j] == LBRACKET && ParseSwitch(s, j, n).Ok?
    ensures j < k < |s|
    ensures s[k] == RBRACKET ==> ParseSwitch(s, j, n).value == Array([])
    ensures s[k] != RBRACKET ==> ParseItems(s, k, n + 1, []).Ok?
    ensures s[k] != RBRACKET ==> ParseSwitch(s, j, n).value == Array(ParseItems(s, k, n + 1, []).value)
  {
    k := SkipWs(s, j + 1);
    assert ParseSwitch(s, j, n) == ParseArray(s, j, n + 1);
  }

  lemma ArrayFits(items: seq<Value>, n: nat)
    requires ItemsFit(items, n + 1) && n <= MAX_NESTING
    ensures WellFormed(Array(items)) && Fits(Array(items), n)
  {
  }

  lemma ObjectFits(ms: seq<Member>, n: nat)
    requires MembersFit(ms, n + 1) && n <= MAX_NESTING
    ensures WellFormed(Object(ms)) && Fits(Object(ms), n)
  {
  }

  predicate ItemsFit(items: seq<Value>, n: nat) {
    forall k :: 0 <= k < |items| ==> WellFormed(items[k]) && Fits(items[k], n)
  }

  lemma ItemsFitAppend(items: seq<Value>, v: Value, n: nat)
    requires ItemsFit(items, n) && WellFormed(v) && Fits(v, n)
    ensures ItemsFit(items + [v], n)
  {
  }

  lemma {:induction false} ParsedItemsWellFormed(s: CString, i: nat, n: nat, done: seq<Value>)
    requires i < |s| && ParseItems(s, i, n, done).Ok? && ItemsFit(done, n)
    ensures ItemsFit(ParseItems(s, i, n, done).value, n)
    decreases |s| - i, 2
  {
    ParsedWellFormed(s, i, n);
    var v, k := ItemRead(s, i, n, done);
    ItemsFitAppend(done, v, n);
    if s[k] == COMMA { ParsedItemsWellFormed(s, SkipWs(s, k + 1), n, done + [v]); }
  }

  lemma ItemRead(s: CString, i: nat, n: nat, done: seq<Value>) returns (v: Value, k: nat)
    requires i < |s| && ParseItems(s, i, n, done).Ok?
    ensures ParseValue(s, i, n).Ok? && v == ParseValue(s, i, n).value && i < k < |s|
    ensures ParseItems(s, i, n, done) == AfterItem(s, k, n, done + [v])
    ensures if s[k] == COMMA then AfterItem(s, k, n, done + [v]) == ParseItems(s, SkipWs(s, k + 1), n, done + [v])
            else AfterItem(s, k, n, done + [v]).value == done + [v]
  {
    v := ParseValue(s, i, n).value;
    k := SkipWs(s, ParseValue(s, i, n).end);
  }

  predicate MembersFit(ms: seq<Member>, n: nat) {
    && UniqueNames(ms)
    && forall k :: 0 <= k < |ms| ==> NoNul(ms[k].name) && WellFormed(ms[k].value) && Fits(ms[k].value, n)
  }

  lemma {:induction false} ParsedMembersWellFormed(s: CString, i: nat, n: nat, done: seq<Member>)
    requires i < |s| && ParseMembers(s, i, n, done).Ok? && MembersFit(done, n)
    ensures MembersFit(ParseMembers(s, i, n, done).value, n)
    decreases |s| - i, 2
  {
    ParsedWellFormed(s, ParseKey(s, i).end, n);
    var m := ParseMember(s, i, n);
    assert MembersFit(done + [m.value], n);
    var k := SkipWs(s, m.end);
    if s[k] == COMMA { ParsedMembersWellFormed(s, SkipWs(s, k + 1), n, done + [m.value]); }
  }

  // ---------------------------------------------------------- the lone minus sign

  /** The number branch, which a digit or a minus sign leads to, stands still exactly on a
      minus sign that starts no number; it is then read as zero. */
  lemma LoneMinusStandsStill(s: CString, i: nat)
    requires i < |s| - 1 && (s[i] == MINUS || IsDigit(s[i]))
    ensures ParseNumber(s, i).Ok? && ParseNumber(s, i).end == i <==>
              && s[i] == MINUS && !SpecialAhead(s, i + 1) && !IsDigit(s[i + 1])
              && !(s[i + 1] == DOT && IsDigit(s[i + 2]))
    ensures ParseNumber(s, i).Ok? && ParseNumber(s, i).end == i ==> ParseNumber(s, i).value == Number(false, 0)
  {
  }

  /** So the text of a single minus sign is accepted, as zero. */
  lemma MinusIsZero()
    ensures Parse([MINUS, 0]) == Ok(Number(false, 0), 0)
  {
    var s: CString := [MINUS, 0];
    LoneMinusStandsStill(s, 0);
    assert SkipWs(s, 0) == 0;
    assert ParseValue(s, 0, 0) == ParseSwitch(s, 0, 0);
  }
}
