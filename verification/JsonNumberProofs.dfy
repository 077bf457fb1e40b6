/** Printing an integer and reading it back. */
module JsonNumberProofs {
  import opened Bytes
  import opened JsonTree
  import opened JsonText
  import opened JsonGrammar
  import DoubleRange

  lemma {:induction false} DecimalDigits(m: nat)
    ensures AllDigits(Decimal(m)) && |Decimal(m)| > 0
    ensures Decimal(m)[0] == ZERO <==> m == 0
    ensures m == 0 ==> |Decimal(m)| == 1
    ensures DigitsValue(Decimal(m)) == m
  {
    if m >= 10 {
      DecimalDigits(m / 10);
      var d := Decimal(m);
      assert d[..|d| - 1] == Decimal(m / 10);
    } else {
      assert Decimal(m)[..0] == [];
      assert DigitsOnto(0, []) == 0;
    }
  }

  lemma {:induction false} DecimalLength(m: nat, n: nat)
    requires n > 0 && m < DoubleRange.Scaled(1, 10, n)
    ensures |Decimal(m)| <= n
  {
    if m >= 10 {
      assert DoubleRange.Scaled(1, 10, n) == 10 * DoubleRange.Scaled(1, 10, n - 1);
      assert n > 1;
      DecimalLength(m / 10, n - 1);
    }
  }

  /** The scratch buffer of the measuring pass (NUM_BUF_SIZE bytes) holds every
      modelled number and its terminating NUL. */
  lemma NumberTextShort(neg: bool, mag: nat)
    requires mag <= MAX_EXACT
    ensures |NumberText(neg, mag)| <= 17
  {
    assert DoubleRange.Scaled(1, 10, 16) == 1_0000_0000_0000_0000 by {
      assert DoubleRange.Scaled(1, 10, 4) == 1_0000;
      assert DoubleRange.Scaled(1, 10, 8) == 1_0000_0000;
      assert DoubleRange.Scaled(1, 10, 12) == 1_0000_0000_0000;
    }
    DecimalLength(mag, 16);
  }

  lemma {:induction false} DigitsEndAt(s: CString, i: nat, j: nat)
    requires i <= j < |s| && !IsDigit(s[j])
    requires forall k :: i <= k < j ==> IsDigit(s[k])
    ensures DigitsEnd(s, i) == j
    decreases j - i
  {
    if i < j { DigitsEndAt(s, i + 1, j); }
  }

  /** What follows the numeral of mag at e makes strtod read on, or refuse. */
  predicate Extends(s: CString, e: nat, mag: nat)
    requires e < |s|
  {
    || IsDigit(s[e])
    || s[e] == DOT
    || ExponentEnd(s, e) != e
    || (mag == 0 && Lower(s[e]) == 'x' as int
        && (IsHex(s[e + 1]) || (s[e + 1] == DOT && IsHex(s[e + 2]))))
  }

  lemma DecimalAt(s: CString, i: nat, mag: nat)
    requires At(s, i, Decimal(mag)) && i + |Decimal(mag)| < |s|
    ensures forall k :: i <= k < i + |Decimal(mag)| ==> IsDigit(s[k])
    ensures |Decimal(mag)| > 0 && (s[i] == ZERO <==> mag == 0) && (mag == 0 ==> |Decimal(mag)| == 1)
    ensures DigitsValue(s[i..i + |Decimal(mag)|]) == mag
  {
    var d := Decimal(mag);
    DecimalDigits(mag);
    AtByte(s, i, d, 0);
    forall k | i <= k < i + |d| ensures IsDigit(s[k]) {
      AtByte(s, i, d, k - i);
      assert IsDigit(d[k - i]);
    }
  }

  /** Where strtod stops in or after a numeral. */
  lemma StrtodStops(s: CString, k: nat, e: nat, mag: nat)
    requires At(s, k, Decimal(mag)) && e == k + |Decimal(mag)| < |s|
    ensures !Extends(s, e, mag) <==> StrtodMagnitude(s, k) == Decimals(e)
  {
    DecimalAt(s, k, mag);
    assert IsDigit(s[k]);
    if !IsDigit(s[e]) {
      DigitsEndAt(s, k, e);
      assert HexAhead(s, k) <==> mag == 0 && Lower(s[e]) == 'x' as int
                                 && (IsHex(s[e + 1]) || (s[e + 1] == DOT && IsHex(s[e + 2])));
    }
  }

  lemma NumeralIsDecimal(t: seq<byte>, k: nat)
    requires k == (if t != [] && t[0] == MINUS then 1 else 0) < |t|
    requires AllDigits(t[k..])
    requires t[k] == ZERO ==> |t| == k + 1
    ensures IsDecimal(t)
  {
    forall j | 0 <= j < |t| ensures Lower(t[j]) != 'x' as int {
      if j >= k { assert IsDigit(t[k..][j - k]); }
    }
    assert IsDigit(t[k..][0]);
  }

  lemma NumberTextDenotes(neg: bool, mag: nat)
    requires mag <= MAX_EXACT
    ensures IsDecimal(NumberText(neg, mag))
    ensures NumberOf(NumberText(neg, mag)) == Number(neg, mag)
  {
    var t := NumberText(neg, mag);
    DecimalDigits(mag);
    assert IsDigit(Decimal(mag)[0]);
    if neg { assert t[1..] == Decimal(mag); } else { assert t == Decimal(mag); assert t[0..] == t; }
    NumeralIsDecimal(t, if neg then 1 else 0);
  }

  /** Where the digits of a printed integer start. */
  lemma NumberTextAt(s: CString, i: nat, neg: bool, mag: nat)
    requires At(s, i, NumberText(neg, mag)) && i + |NumberText(neg, mag)| < |s|
    ensures s[i] == MINUS <==> neg
    ensures s[i] == MINUS || IsDigit(s[i])
    ensures At(s, if neg then i + 1 else i, Decimal(mag))
  {
    AtAppend(s, i, if neg then [MINUS] else [], Decimal(mag));
    DecimalDigits(mag);
    assert IsDigit(Decimal(mag)[0]);
    AtByte(s, i, NumberText(neg, mag), 0);
  }

  /** A printed integer is read back, and the reader stops right after it, exactly
      when the following text does not extend the numeral. */
  lemma NumberRead(s: CString, i: nat, neg: bool, mag: nat)
    requires mag <= MAX_EXACT
    requires At(s, i, NumberText(neg, mag)) && i + |NumberText(neg, mag)| < |s|
    ensures var e := i + |NumberText(neg, mag)|;
            !Extends(s, e, mag) <==> ParseNumber(s, i) == Ok(Number(neg, mag), e)
    ensures s[i] == MINUS || IsDigit(s[i])
  {
    NumberTaken(s, i, i + |NumberText(neg, mag)|, neg, mag);
  }

  lemma NumberTaken(s: CString, i: nat, e: nat, neg: bool, mag: nat)
    requires At(s, i, NumberText(neg, mag)) && e == i + |NumberText(neg, mag)| < |s| && mag <= MAX_EXACT
    ensures !Extends(s, e, mag) <==> ParseNumber(s, i) == Ok(Number(neg, mag), e)
    ensures s[i] == MINUS || IsDigit(s[i])
  {
    NumberConverted(s, i, e, neg, mag);
    NumberInRange(s, i, e, neg, mag);
    PrintedTaken(s, i, e, neg, mag);
    ExtendedNotTaken(s, i, e, neg, mag);
  }

  lemma ExtendedNotTaken(s: CString, i: nat, e: nat, neg: bool, mag: nat)
    requires At(s, i, NumberText(neg, mag)) && e == i + |NumberText(neg, mag)| < |s|
    ensures Extends(s, e, mag) ==> ParseNumber(s, i) != Ok(Number(neg, mag), e)
  {
    NumberConverted(s, i, e, neg, mag);
    if Strtod(s, i) != Decimals(e) { NotConverted(s, i, e); }
  }

  lemma PrintedTaken(s: CString, i: nat, e: nat, neg: bool, mag: nat)
    requires At(s, i, NumberText(neg, mag)) && i < e == i + |NumberText(neg, mag)| < |s| && mag <= MAX_EXACT
    ensures Strtod(s, i) == Decimals(e) && StrtodErrno(s, i) == NoError ==>
              ParseNumber(s, i) == Ok(Number(neg, mag), e)
  {
    NumberTextDenotes(neg, mag);
    TextBetween(s, i, e, NumberText(neg, mag));
    Converted(s, i, e, NumberText(neg, mag));
  }

  lemma NumberConverted(s: CString, i: nat, e: nat, neg: bool, mag: nat)
    requires At(s, i, NumberText(neg, mag)) && e == i + |NumberText(neg, mag)| < |s|
    ensures Strtod(s, i) == Decimals(e) <==> !Extends(s, e, mag)
    ensures i < e && (s[i] == MINUS || IsDigit(s[i]))
  {
    NumberTextAt(s, i, neg, mag);
    DecimalDigits(mag);
    StrtodStops(s, if neg then i + 1 else i, e, mag);
  }

  /** Modelled integers are in the range of a double. */
  lemma IntegerInRange(mag: nat)
    requires mag <= MAX_EXACT
    ensures AllDigits(Decimal(mag)) && DigitsErrno(Decimal(mag), [], 0) == NoError
  {
    DecimalDigits(mag);
    DoubleRange.Pow53();
    DoubleRange.NaturalsInRange(DoubleRange.DOUBLE, mag, 53);
  }

  lemma NumberInRange(s: CString, i: nat, e: nat, neg: bool, mag: nat)
    requires At(s, i, NumberText(neg, mag)) && e == i + |NumberText(neg, mag)| < |s|
    requires mag <= MAX_EXACT
    ensures !Extends(s, e, mag) ==> StrtodErrno(s, i) == NoError
  {
    var k := if neg then i + 1 else i;
    NumberTextAt(s, i, neg, mag);
    DecimalAt(s, k, mag);
    if !Extends(s, e, mag) {
      DigitsEndAt(s, k, e);
      assert Digits(s, k) == Decimal(mag);
      IntegerInRange(mag);
    }
  }

  lemma Converted(s: CString, i: nat, e: nat, t: seq<byte>)
    requires i < e < |s| && s[i..e] == t
    ensures Strtod(s, i) == Decimals(e) && StrtodErrno(s, i) == NoError && IsDecimal(t) ==>
              ParseNumber(s, i) == Ok(NumberOf(t), e)
  {
  }

  lemma TextBetween(s: CString, i: nat, e: nat, t: seq<byte>)
    requires At(s, i, t) && e == i + |t| < |s|
    ensures s[i..e] == t
  {
  }

  lemma NotConverted(s: CString, i: nat, e: nat)
    requires i < e < |s| && Strtod(s, i) != Decimals(e)
    ensures ParseNumber(s, i).Ok? ==> ParseNumber(s, i).end != e
  {
  }
}
