/** Bytes, C strings, and the "text t stands at position i of s" relation every
    parsing proof is phrased with. */
module Bytes {

  type byte = b: int | 0 <= b < 256

  const QUOTE: byte := '\"' as int
  const BACKSLASH: byte := '\\' as int
  const SLASH: byte := '/' as int
  const COMMA: byte := ',' as int
  const COLON: byte := ':' as int
  const DOT: byte := '.' as int
  const MINUS: byte := '-' as int
  const ZERO: byte := '0' as int
  const NEWLINE: byte := '\n' as int
  const SPACE: byte := ' ' as int
  const LBRACE: byte := '{' as int
  const RBRACE: byte := '}' as int
  const LBRACKET: byte := '[' as int
  const RBRACKET: byte := ']' as int

  datatype Option<+T> = None | Some(value: T)

  /** A NUL-terminated C string together with its terminator: the last byte is
      the only NUL, so an in-bounds index never lies past the terminator. */
  type CString = s: seq<byte> |
    |s| > 0 && s[|s| - 1] == 0 && forall k :: 0 <= k < |s| - 1 ==> s[k] != 0
    witness [0]

  predicate NoNul(t: seq<byte>) {
    forall k :: 0 <= k < |t| ==> t[k] != 0
  }

  predicate At(s: seq<byte>, i: nat, t: seq<byte>) {
    i + |t| <= |s| && s[i..i + |t|] == t
  }

  lemma AtAppend(s: seq<byte>, i: nat, a: seq<byte>, b: seq<byte>)
    ensures At(s, i, a + b) <==> At(s, i, a) && At(s, i + |a|, b)
  {
    if At(s, i, a + b) {
      assert a == (a + b)[..|a|] == s[i..i + |a|];
      assert b == (a + b)[|a|..] == s[i + |a|..i + |a| + |b|];
    }
    if At(s, i, a) && At(s, i + |a|, b) {
      assert s[i..i + |a + b|] == s[i..i + |a|] + s[i + |a|..i + |a| + |b|];
    }
  }

  lemma AtByte(s: seq<byte>, i: nat, t: seq<byte>, k: nat)
    requires At(s, i, t) && k < |t|
    ensures s[i + k] == t[k]
  {
    assert s[i..i + |t|][k] == t[k];
  }

  /** The position behind a text that lies at i. */
  function Behind(s: seq<byte>, i: nat, t: seq<byte>): (r: Option<nat>)
    ensures r.Some? ==> i <= r.value <= |s|
  {
    if At(s, i, t) then Some(i + |t|) else None
  }

  lemma Sliced(s: seq<byte>, i: nat, j: nat)
    requires i <= j <= |s|
    ensures Behind(s, i, s[i..j]) == Some(j)
  {
  }

  lemma Glued(s: seq<byte>, i: nat, a: seq<byte>, j: nat, b: seq<byte>, k: nat)
    requires Behind(s, i, a) == Some(j) && Behind(s, j, b) == Some(k)
    ensures Behind(s, i, a + b) == Some(k)
  {
    AtAppend(s, i, a, b);
  }

  lemma Unglued(s: seq<byte>, i: nat, a: seq<byte>, b: seq<byte>, k: nat) returns (j: nat)
    requires Behind(s, i, a + b) == Some(k)
    ensures j == i + |a| <= k && Behind(s, i, a) == Some(j) && Behind(s, j, b) == Some(k)
  {
    AtAppend(s, i, a, b);
    j := i + |a|;
  }

  lemma OneByte(s: seq<byte>, i: nat)
    requires i < |s|
    ensures Behind(s, i, [s[i]]) == Some(i + 1)
  {
  }

  lemma Bracketing(s: seq<byte>, i: nat, open: byte, t: seq<byte>, q: nat, close: byte)
    requires i < |s| && s[i] == open && Behind(s, i + 1, t) == Some(q) && q < |s| && s[q] == close
    ensures Behind(s, i, [open] + t + [close]) == Some(q + 1)
  {
    OneByte(s, i);
    OneByte(s, q);
    Glued(s, i, [open], i + 1, t, q);
    Glued(s, i, [open] + t, q, [close], q + 1);
  }

  /** The first occurrence of pat in t at or behind i: strstr, or buffer_find. */
  function Find(t: seq<byte>, i: nat, pat: seq<byte>): (r: Option<nat>)
    ensures r.Some? ==> i <= r.value && r.value + |pat| <= |t|
    decreases |t| - i
  {
    if i > |t| then None
    else if At(t, i, pat) then Some(i)
    else Find(t, i + 1, pat)
  }

  lemma {:induction false} FindIsFirst(t: seq<byte>, i: nat, pat: seq<byte>)
    ensures match Find(t, i, pat)
            case Some(r) => At(t, r, pat) && forall k :: i <= k < r ==> !At(t, k, pat)
            case None => forall k :: i <= k ==> !At(t, k, pat)
    decreases |t| - i
  {
    if i <= |t| && !At(t, i, pat) { FindIsFirst(t, i + 1, pat); }
  }

  /** isspace() in the C locale. */
  predicate IsSpace(c: byte) {
    c == 32 || 9 <= c <= 13
  }

  predicate IsDigit(c: byte) {
    '0' as int <= c <= '9' as int
  }

  /** tolower() in the C locale. */
  function Lower(c: byte): byte {
    if 'A' as int <= c <= 'Z' as int then c + 32 else c
  }

  /** Two bytes fold to the same exactly when they are the same or the two cases of one
      letter, which are 32 apart. */
  lemma LowerFolds(c: byte, d: byte)
    ensures Lower(c) == Lower(d)
       <==> || c == d
            || ('A' as int <= c <= 'Z' as int && d == c + 32)
            || ('A' as int <= d <= 'Z' as int && c == d + 32)
  {
  }

  /** isspace() and isdigit() there: six characters and ten. */
  lemma ClassesAre(c: byte)
    ensures IsSpace(c) <==> c as char in " \t\n\r" || c in {11, 12}
    ensures IsDigit(c) <==> c as char in "0123456789"
  {
    if IsDigit(c) { assert "0123456789"[c - ZERO] == c as char; }
    if IsSpace(c) && c !in {11, 12} {
      assert " \t\n\r"[if c == 32 then 0 else if c == 9 then 1 else if c == 10 then 2 else 3] == c as char;
    }
  }

  /** The digits of a number, without superfluous zeros. */
  function Decimal(m: nat): seq<byte> {
    if m < 10 then [ZERO + m] else Decimal(m / 10) + [ZERO + m % 10]
  }

  /** The position SKIP_WHITESPACES leaves the cursor at. */
  function SkipWs(s: CString, i: nat): (r: nat)
    requires i < |s|
    ensures i <= r < |s| && !IsSpace(s[r])
    ensures forall k :: i <= k < r ==> IsSpace(s[k])
    decreases |s| - i
  {
    if IsSpace(s[i]) then SkipWs(s, i + 1) else i
  }
}
