/** UTF-8 as section 3 of RFC 3629 encodes it and section 4 spells out its syntax. */
module Utf8 {
  import opened Bytes

  predicate IsCont(c: byte) {
    0x80 <= c < 0xC0
  }

  /** A Unicode scalar value: any code point but the surrogates. */
  predicate IsScalar(cp: int) {
    0 <= cp < 0xD800 || 0xE000 <= cp <= 0x10FFFF
  }

  /** The low six bits, all that a continuation byte carries, and the bits above. */
  function Low6(n: nat): (r: nat)
    ensures r < 0x40
  {
    n % 0x40
  }

  function High(n: nat): nat {
    n / 0x40
  }

  /** Six more bits. */
  function Shift6(high: nat, low: nat): nat {
    high * 0x40 + low
  }

  lemma HighLow(high: nat, low: nat)
    requires low < 0x40
    ensures High(Shift6(high, low)) == high && Low6(Shift6(high, low)) == low
  {
  }

  /** Section 3 of RFC 3629: six bits to a byte behind the leading one. */
  function Encode(cp: nat): (t: seq<byte>)
    requires cp <= 0x10FFFF
  {
    if cp < 0x80 then [cp]
    else if cp < 0x800 then [0xC0 + High(cp), 0x80 + Low6(cp)]
    else if cp < 0x1_0000 then [0xE0 + High(High(cp)), 0x80 + Low6(High(cp)), 0x80 + Low6(cp)]
    else [0xF0 + High(High(High(cp))), 0x80 + Low6(High(High(cp))), 0x80 + Low6(High(cp)), 0x80 + Low6(cp)]
  }

  /** UTF8-char of section 4 of RFC 3629. */
  predicate IsUtf8Char(t: seq<byte>) {
    || (|t| == 1 && t[0] < 0x80)
    || (|t| == 2 && 0xC2 <= t[0] <= 0xDF && IsCont(t[1]))
    || (|t| == 3 && IsCont(t[1]) && IsCont(t[2])
        && (|| (t[0] == 0xE0 && 0xA0 <= t[1])
            || 0xE1 <= t[0] <= 0xEC
            || (t[0] == 0xED && t[1] <= 0x9F)
            || 0xEE <= t[0] <= 0xEF))
    || (|t| == 4 && IsCont(t[1]) && IsCont(t[2]) && IsCont(t[3])
        && (|| (t[0] == 0xF0 && 0x90 <= t[1])
            || 0xF1 <= t[0] <= 0xF3
            || (t[0] == 0xF4 && t[1] <= 0x8F)))
  }

  /** The length a leading byte announces; 0 for a byte that leads nothing. */
  function NumBytes(c: byte): (n: nat)
    ensures n <= 4
  {
    if c == 0xC0 || c == 0xC1 || c > 0xF4 || IsCont(c) then 0
    else if c < 0x80 then 1
    else if c < 0xE0 then 2
    else if c < 0xF0 then 3
    else 4
  }

  /** UTF8-octets of section 4 of RFC 3629. */
  predicate IsUtf8(t: seq<byte>)
    decreases |t|
  {
    t == [] || (var n := NumBytes(t[0]);
                1 <= n <= |t| && IsUtf8Char(t[..n]) && IsUtf8(t[n..]))
  }

  function Decode(t: seq<byte>): nat
    requires IsUtf8Char(t)
  {
    if |t| == 1 then t[0]
    else if |t| == 2 then Shift6(t[0] - 0xC0, Low6(t[1]))
    else if |t| == 3 then Shift6(Shift6(t[0] - 0xE0, Low6(t[1])), Low6(t[2]))
    else Shift6(Shift6(Shift6(t[0] - 0xF0, Low6(t[1])), Low6(t[2])), Low6(t[3]))
  }

  lemma DecodeEncodes2(t: seq<byte>)
    requires IsUtf8Char(t) && |t| == 2
    ensures IsScalar(Decode(t)) && Encode(Decode(t)) == t
  {
    HighLow(t[0] - 0xC0, Low6(t[1]));
    assert 0x80 + Low6(t[1]) == t[1];
  }

  lemma DecodeEncodes3(t: seq<byte>)
    requires IsUtf8Char(t) && |t| == 3
    ensures IsScalar(Decode(t)) && Encode(Decode(t)) == t
  {
    var h, m, l := t[0] - 0xE0, Low6(t[1]), Low6(t[2]);
    assert 0x80 + m == t[1] && 0x80 + l == t[2];
    HighLow(h, m);
    var hm := Shift6(h, m);
    assert 0x20 <= hm < 0x400 && !(0x360 <= hm <= 0x37F);
    HighLow(hm, l);
    HighBounds(Decode(t));
  }

  lemma DecodeEncodes4(t: seq<byte>)
    requires IsUtf8Char(t) && |t| == 4
    ensures IsScalar(Decode(t)) && Encode(Decode(t)) == t
  {
    ContLow(t[1]);
    ContLow(t[2]);
    ContLow(t[3]);
    Encode4(t[0] - 0xF0, Low6(t[1]), Low6(t[2]), Low6(t[3]));
    assert t == [t[0], t[1], t[2], t[3]];
  }

  lemma ContLow(b: byte)
    requires IsCont(b)
    ensures Low6(b) < 0x40 && 0x80 + Low6(b) == b
  {
  }

  lemma Encode4(h: nat, n: nat, m: nat, l: nat)
    requires h <= 4 && n < 0x40 && m < 0x40 && l < 0x40
    requires (h == 0 ==> n >= 0x10) && (h == 4 ==> n <= 0xF)
    ensures var cp := Shift6(Shift6(Shift6(h, n), m), l);
      0x1_0000 <= cp <= 0x10_FFFF && Encode(cp) == [0xF0 + h, 0x80 + n, 0x80 + m, 0x80 + l]
  {
    Range4(h, n, m, l);
    HighLow(h, n);
    HighLow(Shift6(h, n), m);
    HighLow(Shift6(Shift6(h, n), m), l);
  }

  lemma Range4(h: nat, n: nat, m: nat, l: nat)
    requires h <= 4 && n < 0x40 && m < 0x40 && l < 0x40
    requires (h == 0 ==> n >= 0x10) && (h == 4 ==> n <= 0xF)
    ensures 0x1_0000 <= Shift6(Shift6(Shift6(h, n), m), l) <= 0x10_FFFF
  {
  }

  /** Sections 3 and 4 of RFC 3629 agree: the syntax covers the encodings of the
      scalar values and nothing else, each announced by its leading byte. */
  lemma DecodeEncodes(t: seq<byte>)
    requires IsUtf8Char(t)
    ensures IsScalar(Decode(t)) && Encode(Decode(t)) == t
    ensures NumBytes(t[0]) == |t|
  {
    if |t| == 2 {
      DecodeEncodes2(t);
    } else if |t| == 3 {
      DecodeEncodes3(t);
    } else if |t| == 4 {
      DecodeEncodes4(t);
    }
  }

  lemma HighBounds(cp: nat)
    ensures cp == Shift6(High(cp), Low6(cp))
    ensures cp < 0x800 <==> High(cp) < 0x20
    ensures cp < 0x1_0000 <==> High(cp) < 0x400
    ensures cp <= 0x10_FFFF <==> High(cp) <= 0x43FF
    ensures 0xD800 <= cp <= 0xDFFF <==> 0x360 <= High(cp) <= 0x37F
    ensures cp < 0x80 <==> High(cp) < 2
  {
  }

  lemma HighHighBounds(h: nat)
    ensures h == Shift6(High(h), Low6(h))
    ensures h < 0x20 ==> High(h) == 0 && Low6(h) == h
    ensures h < 0x400 <==> High(h) < 0x10
    ensures h <= 0x43FF <==> High(h) <= 0x10F
    ensures 0x360 <= h <= 0x37F <==> High(h) == 0xD && Low6(h) >= 0x20
  {
  }

  lemma TopBounds(t: nat)
    requires 0x10 <= t <= 0x10F
    ensures t == Shift6(High(t), Low6(t)) && High(t) <= 4
    ensures High(t) == 0 ==> Low6(t) >= 0x10
    ensures High(t) == 4 ==> Low6(t) <= 0xF
  {
  }

  lemma EncodeDecodes(cp: nat)
    requires IsScalar(cp)
    ensures IsUtf8Char(Encode(cp)) && Decode(Encode(cp)) == cp
    ensures NumBytes(Encode(cp)[0]) == |Encode(cp)|
  {
    if cp >= 0x1_0000 {
      EncodeDecodes4(cp);
    } else if cp >= 0x800 {
      EncodeDecodes3(cp);
    } else if cp >= 0x80 {
      EncodeDecodes2(cp);
    }
  }

  /** What a byte carries behind its marker. */
  function Payload(c: int, marker: int): int {
    c - marker
  }

  /** The bits of the leading byte and six from each byte behind it make up the number. */
  lemma EncodeWeighs(cp: nat)
    requires IsScalar(cp)
    ensures var t := Encode(cp);
      match |t|
      case 1 => cp == t[0]
      case 2 => cp == 0x40 * Payload(t[0], 0xC0) + Payload(t[1], 0x80)
      case 3 => cp == 0x1000 * Payload(t[0], 0xE0) + 0x40 * Payload(t[1], 0x80) + Payload(t[2], 0x80)
      case _ => cp == 0x4_0000 * Payload(t[0], 0xF0) + 0x1000 * Payload(t[1], 0x80)
                      + 0x40 * Payload(t[2], 0x80) + Payload(t[3], 0x80)
  {
    HighBounds(cp);
    HighBounds(High(cp));
    HighBounds(High(High(cp)));
  }

  lemma EncodeDecodes2(cp: nat)
    requires 0x80 <= cp < 0x800
    ensures IsUtf8Char(Encode(cp)) && Decode(Encode(cp)) == cp
    ensures NumBytes(Encode(cp)[0]) == |Encode(cp)|
  {
    HighBounds(cp);
    LowOfCont(Low6(cp));
  }

  lemma EncodeDecodes3(cp: nat)
    requires 0x800 <= cp < 0x1_0000 && IsScalar(cp)
    ensures IsUtf8Char(Encode(cp)) && Decode(Encode(cp)) == cp
    ensures NumBytes(Encode(cp)[0]) == |Encode(cp)|
  {
    HighBounds(cp);
    HighHighBounds(High(cp));
    var e := Encode(cp);
    assert e == [0xE0 + High(High(cp)), 0x80 + Low6(High(cp)), 0x80 + Low6(cp)];
    assert IsUtf8Char(e);
    LowOfCont(Low6(High(cp)));
    LowOfCont(Low6(cp));
    assert Decode(e) == Shift6(Shift6(High(High(cp)), Low6(High(cp))), Low6(cp));
  }

  lemma EncodeDecodes4(cp: nat)
    requires 0x1_0000 <= cp <= 0x10_FFFF
    ensures IsUtf8Char(Encode(cp)) && Decode(Encode(cp)) == cp
    ensures NumBytes(Encode(cp)[0]) == |Encode(cp)|
  {
    HighBounds(cp);
    HighHighBounds(High(cp));
    var t := High(High(cp));
    TopBounds(t);
    var e := Encode(cp);
    assert e == [0xF0 + High(t), 0x80 + Low6(t), 0x80 + Low6(High(cp)), 0x80 + Low6(cp)];
    assert IsUtf8Char(e);
    LowOfCont(Low6(t));
    LowOfCont(Low6(High(cp)));
    LowOfCont(Low6(cp));
    assert Decode(e) == Shift6(Shift6(Shift6(High(t), Low6(t)), Low6(High(cp))), Low6(cp));
  }

  lemma LowOfCont(low: nat)
    requires low < 0x40
    ensures Low6(0x80 + low) == low
  {
  }

  lemma CharIsUtf8(t: seq<byte>)
    requires IsUtf8Char(t)
    ensures IsUtf8(t)
  {
    DecodeEncodes(t);
    assert t[..|t|] == t;
    assert t[|t|..] == [];
  }

  lemma {:induction false} AppendIsUtf8(a: seq<byte>, b: seq<byte>)
    requires IsUtf8(a) && IsUtf8(b)
    ensures IsUtf8(a + b)
    decreases |a|
  {
    if a == [] {
      assert a + b == b;
    } else {
      var n := NumBytes(a[0]);
      AppendIsUtf8(a[n..], b);
      SplitAppend(a, b, n);
    }
  }

  lemma SplitAppend(a: seq<byte>, b: seq<byte>, n: nat)
    requires n <= |a|
    ensures (a + b)[..n] == a[..n] && (a + b)[n..] == a[n..] + b
  {
  }

  /** Leading ASCII bytes come off one at a time. */
  lemma {:induction false} DropAscii(t: seq<byte>, n: nat)
    requires n <= |t| && IsUtf8(t) && forall k :: 0 <= k < n ==> t[k] < 0x80
    ensures IsUtf8(t[n..])
  {
    if n > 0 {
      assert NumBytes(t[0]) == 1;
      DropAscii(t[1..], n - 1);
      assert t[1..][n - 1..] == t[n..];
    } else {
      assert t[0..] == t;
    }
  }

  // --------------------------------------- verify_utf8_sequence and is_valid_utf8

  /** A buffer that is read byte by byte up to a NUL somewhere behind what is asked for. */
  predicate Terminated(buf: seq<byte>) {
    |buf| > 0 && buf[|buf| - 1] == 0
  }

  predicate CharAt(buf: seq<byte>, i: nat) {
    i < |buf| && (var n := NumBytes(buf[i]); 1 <= n && i + n <= |buf| && IsUtf8Char(buf[i..i + n]))
  }

  lemma ThreeByteRange(h: nat, m: nat, l: nat)
    requires h < 0x10 && m < 0x40 && l < 0x40
    ensures var cp := Shift6(Shift6(h, m), l);
      && cp < 0x1_0000
      && (cp < 0x800 <==> h == 0 && m < 0x20)
      && (0xD800 <= cp <= 0xDFFF <==> h == 0xD && m >= 0x20)
  {
  }

  lemma FourByteRange(h: nat, n: nat, m: nat, l: nat)
    requires h < 8 && n < 0x40 && m < 0x40 && l < 0x40
    ensures var cp := Shift6(Shift6(Shift6(h, n), m), l);
      && (cp < 0x1_0000 <==> h == 0 && n < 0x10)
      && (cp <= 0x10_FFFF <==> h < 4 || (h == 4 && n < 0x10))
  {
  }

  lemma OneByteAt(buf: seq<byte>, i: nat)
    requires i < |buf| && NumBytes(buf[i]) == 1
    ensures CharAt(buf, i) && buf[i] < 0x80
  {
    assert buf[i..i + 1] == [buf[i]];
  }

  lemma TwoBytesAt(buf: seq<byte>, i: nat)
    requires i + 1 < |buf| && NumBytes(buf[i]) == 2 && IsCont(buf[i + 1])
    ensures CharAt(buf, i) && 0x80 <= Shift6(buf[i] % 0x20, Low6(buf[i + 1])) < 0x800
  {
    assert buf[i..i + 2] == [buf[i], buf[i + 1]];
  }

  lemma ThreeBytesAt(buf: seq<byte>, i: nat)
    requires i + 2 < |buf| && NumBytes(buf[i]) == 3 && IsCont(buf[i + 1]) && IsCont(buf[i + 2])
    ensures var cp := Shift6(Shift6(buf[i] % 0x10, Low6(buf[i + 1])), Low6(buf[i + 2]));
      cp < 0x1_0000 && (CharAt(buf, i) <==> cp >= 0x800 && !(0xD800 <= cp <= 0xDFFF))
  {
    ThreeByteRange(buf[i] % 0x10, Low6(buf[i + 1]), Low6(buf[i + 2]));
    assert buf[i..i + 3] == [buf[i], buf[i + 1], buf[i + 2]];
  }

  lemma FourBytesAt(buf: seq<byte>, i: nat)
    requires i + 3 < |buf| && NumBytes(buf[i]) == 4
    requires IsCont(buf[i + 1]) && IsCont(buf[i + 2]) && IsCont(buf[i + 3])
    ensures var cp := Shift6(Shift6(Shift6(buf[i] % 8, Low6(buf[i + 1])), Low6(buf[i + 2])), Low6(buf[i + 3]));
      CharAt(buf, i) <==> 0x1_0000 <= cp <= 0x10_FFFF
  {
    FourByteRange(buf[i] % 8, Low6(buf[i + 1]), Low6(buf[i + 2]), Low6(buf[i + 3]));
    assert buf[i..i + 4] == [buf[i], buf[i + 1], buf[i + 2], buf[i + 3]];
  }

  /** A byte that leads nothing, or a continuation byte that is missing. */
  lemma NoCharAt(buf: seq<byte>, i: nat)
    requires Terminated(buf) && i < |buf|
    requires var n := NumBytes(buf[i]);
      || n == 0 || (n == 2 && !IsCont(buf[i + 1])) || (n == 3 && !(IsCont(buf[i + 1]) && IsCont(buf[i + 2])))
      || (n == 4 && !(IsCont(buf[i + 1]) && IsCont(buf[i + 2]) && IsCont(buf[i + 3])))
    ensures !CharAt(buf, i)
  {
    var n := NumBytes(buf[i]);
    if n > 0 && i + n <= |buf| {
      var t := buf[i..i + n];
      assert forall k :: 0 <= k < n ==> t[k] == buf[i + k];
    }
  }

  /** verify_utf8_sequence accepts exactly the characters of RFC 3629, and never reads
      behind the terminator. */
  method VerifyUtf8Sequence(buf: seq<byte>, i: nat) returns (ok: bool, len: nat)
    requires Terminated(buf) && i < |buf|
    ensures len == NumBytes(buf[i])
    ensures ok <==> CharAt(buf, i)
  {
    var cp := 0;
    ok, len := false, NumBytes(buf[i]);
    if len == 1 {
      cp := buf[i];
      OneByteAt(buf, i);
    } else if len == 2 && IsCont(buf[i + 1]) {
      cp := Shift6(buf[i] % 0x20, Low6(buf[i + 1]));
      TwoBytesAt(buf, i);
    } else if len == 3 && IsCont(buf[i + 1]) && IsCont(buf[i + 2]) {
      cp := Shift6(Shift6(buf[i] % 0x10, Low6(buf[i + 1])), Low6(buf[i + 2]));
      ThreeBytesAt(buf, i);
    } else if len == 4 && IsCont(buf[i + 1]) && IsCont(buf[i + 2]) && IsCont(buf[i + 3]) {
      cp := Shift6(Shift6(Shift6(buf[i] % 8, Low6(buf[i + 1])), Low6(buf[i + 2])), Low6(buf[i + 3]));
      FourBytesAt(buf, i);
    } else {
      NoCharAt(buf, i);
      return;
    }
    if (cp < 0x80 && len > 1) || (cp < 0x800 && len > 2) || (cp < 0x1_0000 && len > 3) { return; }
    if cp > 0x10_FFFF { return; }
    if 0xD800 <= cp <= 0xDFFF { return; }
    ok := true;
  }

  /** What is_valid_utf8 decides from position i on. */
  predicate Scans(buf: seq<byte>, i: nat, len: nat)
    decreases len - i
  {
    i >= len || (CharAt(buf, i) && Scans(buf, i + NumBytes(buf[i]), len))
  }

  method IsValidUtf8(buf: seq<byte>, len: nat) returns (ok: bool)
    requires Terminated(buf) && len < |buf|
    ensures ok <==> Scans(buf, 0, len)
  {
    var i := 0;
    while i < len
      invariant Scans(buf, 0, len) == Scans(buf, i, len)
      decreases len - i
    {
      var good, n := VerifyUtf8Sequence(buf, i);
      if !good { return false; }
      i := i + n;
    }
    ok := true;
  }

  /** Behind a byte that continues nothing, is_valid_utf8 decides validity. */
  lemma {:induction false} ScansIsUtf8(buf: seq<byte>, i: nat, len: nat)
    requires i <= len < |buf| && !IsCont(buf[len])
    ensures Scans(buf, i, len) <==> IsUtf8(buf[i..len])
    decreases len - i
  {
    if i < len {
      var n := NumBytes(buf[i]);
      var t := buf[i..len];
      assert t[0] == buf[i];
      if i + n <= len {
        assert t[..n] == buf[i..i + n];
        assert t[n..] == buf[i + n..len];
        if n > 0 { ScansIsUtf8(buf, i + n, len); }
      } else if i + n <= |buf| {
        assert buf[i..i + n][len - i] == buf[len];
      }
    }
  }

  /** A text on which it goes wrong: the single byte 0xC2, which is half a character, passes
      with any continuation byte behind it. */
  lemma LoneLeadScans(c: byte)
    requires IsCont(c)
    ensures Scans([0xC2, c, 0], 0, 1) && !IsUtf8([0xC2])
  {
    assert [0xC2, c, 0][0..2] == [0xC2, c];
    assert [0xC2][..1] == [0xC2];
  }

  /** is_valid_utf8 looks past the given length: whatever the text before it, the answer
      is the right one exactly when the byte behind the text continues no character. */
  lemma ValidityNeedsBoundary(c: byte)
    ensures !IsCont(c) <==> forall t: seq<byte> :: Scans(t + [c, 0], 0, |t|) == IsUtf8(t)
  {
    if IsCont(c) {
      LoneLeadScans(c);
      var t: seq<byte> := [0xC2];
      assert Scans(t + [c, 0], 0, |t|) != IsUtf8(t);
    } else {
      forall t: seq<byte> ensures Scans(t + [c, 0], 0, |t|) == IsUtf8(t) {
        var buf := t + [c, 0];
        ScansIsUtf8(buf, 0, |t|);
        assert buf[0..|t|] == t;
      }
    }
  }
}
