/** The laws of the parser and the printer together. */
module JsonTheorems {
  import opened Bytes
  import opened JsonTree
  import opened JsonText
  import opened JsonGrammar
  import opened JsonNumberProofs
  import opened JsonRoundTrip
  import opened JsonWellFormed

  // --------------------------------------------------- printed text is a C string

  lemma {:induction false} EscapeNoNul(t: seq<byte>, k: nat, st: Style)
    requires k <= |t|
    ensures NoNul(Escape(t, k, st))
    decreases |t| - k
  {
    if k < |t| {
      assert NoNul(EscapeByte(t[k], st));
      EscapeNoNul(t, k + 1, st);
    }
  }

  lemma {:induction false} IndentNoNul(level: nat)
    ensures NoNul(Indent(level))
  {
    if level > 0 { IndentNoNul(level - 1); }
  }

  lemma NumberTextNoNul(neg: bool, mag: nat)
    ensures NoNul(NumberText(neg, mag))
  {
    DecimalDigits(mag);
    forall k | 0 <= k < |Decimal(mag)| ensures Decimal(mag)[k] != 0 { assert IsDigit(Decimal(mag)[k]); }
  }

  lemma EntryHeadNoNul(v: Value, k: nat, st: Style)
    requires k < Count(v)
    ensures NoNul(EntryHead(v, k, st))
  {
    if v.Object? { EscapeNoNul(v.members[k].name, 0, st); }
  }

  lemma NoNulFive(a: seq<byte>, b: seq<byte>, c: seq<byte>, d: seq<byte>, e: seq<byte>)
    requires NoNul(a) && NoNul(b) && NoNul(c) && NoNul(d) && NoNul(e)
    ensures NoNul(a + b + c + d + e)
  {
  }

  lemma {:induction false} EntriesNoNul(v: Value, k: nat, level: nat, st: Style)
    requires k <= Count(v) && Integral(v)
    ensures NoNul(EntriesText(v, k, level, st))
    decreases v, 0, Count(v) - k
  {
    if k < Count(v) {
      IndentNoNul(level + 1);
      EntryHeadNoNul(v, k, st);
      TextNoNul(Child(v, k), level + 1, st);
      EntriesNoNul(v, k + 1, level, st);
      NoNulFive(IndentIf(st.pretty, level + 1), EntryHead(v, k, st), ChildText(v, k, level, st),
                Separator(k, Count(v), st), EntriesText(v, k + 1, level, st));
    }
  }

  lemma {:induction false} TextNoNul(v: Value, level: nat, st: Style)
    requires Integral(v)
    ensures NoNul(Text(v, level, st))
    decreases v, 1, 0
  {
    if v.Number? {
      NumberTextNoNul(v.neg, v.mag);
    } else if v.String? {
      EscapeNoNul(v.chars, 0, st);
    } else if IsContainer(v) {
      var multi := Count(v) > 0 && st.pretty;
      IndentNoNul(level);
      EntriesNoNul(v, 0, level, st);
      NoNulFive([Open(v)], NewlineIf(multi), EntriesText(v, 0, level, st), IndentIf(multi, level), [Close(v)]);
    }
  }

  /** The printed tree in front of any C string is a C string. */
  function Printed(v: Value, st: Style, suffix: CString): CString
    requires Integral(v)
  {
    TextNoNul(v, 0, st);
    Text(v, 0, st) + suffix
  }

  // ------------------------------------------------------------------- theorems

  /** Parsing a printed tree, whatever follows it: the same tree with its keys in the
      same order, up to its last byte, exactly when at most MAX_NESTING containers
      surround any of its nodes. */
  lemma PrintThenParse(v: Value, st: Style, suffix: CString)
    requires WellFormed(v) && Integral(v)
    requires CannotExtend(suffix, 0, v)
    ensures Parse(Printed(v, st, suffix)) == if Fits(v, 0) then Ok(v, |Text(v, 0, st)|) else Fail
  {
    var s := Printed(v, st, suffix);
    var e := |Text(v, 0, st)|;
    TextStart(v, 0, st);
    assert s[..e] == Text(v, 0, st) && s[0] == Text(v, 0, st)[0];
    assert CannotExtend(s, e, v) by { ExtendsShift(s, suffix, e, v); }
    ValueRead(s, 0, v, 0, st, 0);
    assert s[0] != 0xEF;
    assert !At(s, 0, [0xEF, 0xBB, 0xBF]) by {
      if At(s, 0, [0xEF, 0xBB, 0xBF]) { AtByte(s, 0, [0xEF, 0xBB, 0xBF], 0); }
    }
  }

  /** Whether a numeral is extended depends on what follows it only. */
  lemma ExtendsShift(s: CString, suffix: CString, e: nat, v: Value)
    requires e < |s| && s[e..] == suffix && CannotExtend(suffix, 0, v)
    ensures CannotExtend(s, e, v)
  {
  }

  /** Parsing, printing and parsing again gives what parsing gave, for every text
      whose number tokens are modelled integers. */
  lemma ParsePrintParse(s: CString, st: Style)
    requires Parse(s).Ok? && Integral(Parse(s).value)
    ensures var v := Parse(s).value;
            && WellFormed(v) && Fits(v, 0)
            && Parse(Printed(v, st, [0])) == Ok(v, |Text(v, 0, st)|)
  {
    if At(s, 0, [0xEF, 0xBB, 0xBF]) {
      assert s[..3] == [0xEF, 0xBB, 0xBF];
      ParsedWellFormed(s, 3, 0);
    } else {
      ParsedWellFormed(s, 0, 0);
    }
    PrintThenParse(Parse(s).value, st, [0]);
  }

  /** Compact and pretty text, with slashes escaped or not, all denote the same tree. */
  lemma StyleIsLayoutOnly(v: Value, st: Style, st': Style)
    requires WellFormed(v) && Integral(v)
    ensures var a, b := Parse(Printed(v, st, [0])), Parse(Printed(v, st', [0]));
            a.Ok? == b.Ok? && (a.Ok? ==> a.value == b.value)
  {
    PrintThenParse(v, st, [0]);
    PrintThenParse(v, st', [0]);
  }
}
