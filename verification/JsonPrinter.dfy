/** json_serialize_to_buffer_r as it runs, twice: measuring with no buffer, then
    writing through a moving position into the buffer that was allocated. */
module JsonPrinter {
  import opened Bytes
  import opened JsonTree
  import opened JsonText
  import opened JsonNumberProofs

  const INT_MAX := 0x7FFF_FFFF
  const NUM_BUF_SIZE := 64

  /** C's int: every sum of lengths below is proved not to overflow it. */
  type int32 = n: int | -0x8000_0000 <= n <= 0x7FFF_FFFF

  /** b is o after t was written at p. The byte behind t may have become the NUL that
      sprintf leaves there; every other byte is as before. */
  ghost predicate Wrote(b: seq<byte>, o: seq<byte>, p: nat, t: seq<byte>) {
    && |b| == |o| && p + |t| < |o|
    && b[..p] == o[..p]
    && At(b, p, t)
    && b[p + |t| + 1..] == o[p + |t| + 1..]
  }

  lemma WroteNothing(o: seq<byte>, p: nat)
    requires p < |o|
    ensures Wrote(o, o, p, [])
  {
  }

  lemma WroteMore(b: seq<byte>, c: seq<byte>, o: seq<byte>, p: nat, t: seq<byte>, u: seq<byte>)
    requires Wrote(b, o, p, t) && Wrote(c, b, p + |t|, u)
    ensures Wrote(c, o, p, t + u)
  {
    assert c[..p] == c[..p + |t|][..p] == b[..p];
    assert c[p..p + |t|] == c[..p + |t|][p..] == b[p..p + |t|];
    AtAppend(c, p, t, u);
    assert b[p + |t| + |u| + 1..] == b[p + |t| + 1..][|u|..];
    assert o[p + |t| + |u| + 1..] == o[p + |t| + 1..][|u|..];
  }

  /** Room for t and a NUL at p, and lengths that an int holds. */
  ghost predicate Room(buf: array?<byte>, p: nat, t: seq<byte>) {
    |t| <= INT_MAX && (buf != null ==> p + |t| < buf.Length)
  }

  /** What every writing method promises: the length always; with a buffer, the text
      at p, a NUL behind it, and nothing else changed. */
  twostate predicate Put(buf: array?<byte>, p: nat, t: seq<byte>, written: int)
    reads buf
  {
    && written == |t|
    && (buf != null ==> Wrote(buf[..], old(buf[..]), p, t) && buf[p + |t|] == 0)
  }

  /** append_string: strlen without a buffer, sprintf with one. */
  method AppendString(buf: array?<byte>, p: nat, str: seq<byte>) returns (written: int32)
    requires Room(buf, p, str)
    modifies buf
    ensures Put(buf, p, str, written)
  {
    written := |str|;
    if buf == null { return; }
    forall k | 0 <= k < |str| { buf[p + k] := str[k]; }
    buf[p + |str|] := 0;
  }

  /** Mid-way through a text: done has been written from p0 on (or only counted), the
      position is p and written_total is total. */
  ghost predicate Progress(buf: array?<byte>, o: seq<byte>, p0: nat, done: seq<byte>, p: nat, total: int)
    reads buf
  {
    && total == |done|
    && (buf != null ==> p == p0 + |done| && Wrote(buf[..], o, p0, done))
  }

  /** The APPEND_STRING macro. */
  method Append(buf: array?<byte>, p: nat, total: int32, str: seq<byte>, ghost o: seq<byte>, ghost p0: nat,
                ghost done: seq<byte>)
    returns (p': nat, total': int32)
    requires Progress(buf, o, p0, done, p, total) && Room(buf, p0, done + str)
    modifies buf
    ensures Progress(buf, o, p0, done + str, p', total')
    ensures buf != null ==> p' < buf.Length && buf[p'] == 0
  {
    p' := p;
    ghost var before := if buf == null then [] else buf[..];
    var written := AppendString(buf, p, str);
    if buf != null {
      p' := p' + written;
      WroteMore(before, buf[..], o, p0, done, str);
    }
    total' := total + written;
  }

  /** The APPEND_INDENT macro and append_indent. */
  method AppendIndent(buf: array?<byte>, p: nat, total: int32, level: nat, ghost o: seq<byte>, ghost p0: nat,
                      ghost done: seq<byte>)
    returns (p': nat, total': int32)
    requires Progress(buf, o, p0, done, p, total) && Room(buf, p0, done + Indent(level))
    modifies buf
    ensures Progress(buf, o, p0, done + Indent(level), p', total')
  {
    p', total' := p, total;
    ghost var d := done;
    for i := 0 to level
      invariant Progress(buf, o, p0, d, p', total')
      invariant d + Indent(level - i) == done + Indent(level)
    {
      assert d + Indent(level - i) == d + [SPACE, SPACE, SPACE, SPACE] + Indent(level - i - 1);
      p', total' := Append(buf, p', total', [SPACE, SPACE, SPACE, SPACE], o, p0, d);
      d := d + [SPACE, SPACE, SPACE, SPACE];
    }
  }

  /** The default case of json_serialize_string: one byte stored, no NUL behind it. */
  method StoreByte(buf: array?<byte>, p: nat, total: int32, c: byte, ghost o: seq<byte>, ghost p0: nat,
                   ghost done: seq<byte>)
    returns (p': nat, total': int32)
    requires Progress(buf, o, p0, done, p, total) && Room(buf, p0, done + [c])
    modifies buf
    ensures Progress(buf, o, p0, done + [c], p', total')
  {
    p' := p;
    ghost var before := if buf == null then [] else buf[..];
    if buf != null {
      buf[p'] := c;
      p' := p' + 1;
      assert Wrote(buf[..], before, p, [c]);
      WroteMore(before, buf[..], o, p0, done, [c]);
    }
    total' := total + 1;
  }

  /** The switch of json_serialize_string. */
  method AppendEscaped(buf: array?<byte>, p: nat, total: int32, c: byte, st: Style, ghost o: seq<byte>,
                       ghost p0: nat, ghost done: seq<byte>)
    returns (p': nat, total': int32)
    requires Progress(buf, o, p0, done, p, total) && Room(buf, p0, done + EscapeByte(c, st))
    modifies buf
    ensures Progress(buf, o, p0, done + EscapeByte(c, st), p', total')
  {
    if c >= 32 && c != QUOTE && c != BACKSLASH && c != SLASH {
      p', total' := StoreByte(buf, p, total, c, o, p0, done);
    } else {
      p', total' := Append(buf, p, total, EscapeByte(c, st), o, p0, done);
    }
  }

  lemma EscapeStep(t: seq<byte>, k: nat, st: Style, d: seq<byte>, whole: seq<byte>)
    requires k < |t| && d + Escape(t, k, st) == whole
    ensures d + EscapeByte(t[k], st) + Escape(t, k + 1, st) == whole
    ensures |d + EscapeByte(t[k], st)| <= |whole|
  {
    var x, y := EscapeByte(t[k], st), Escape(t, k + 1, st);
    assert d + (x + y) == d + x + y;
  }

  lemma EscapeDone(t: seq<byte>, st: Style, d: seq<byte>)
    ensures d + Escape(t, |t|, st) == d
  {
  }

  method AppendEscapes(t: seq<byte>, buf: array?<byte>, p: nat, total: int32, st: Style, ghost o: seq<byte>,
                       ghost p0: nat, ghost done: seq<byte>)
    returns (p': nat, total': int32)
    requires Progress(buf, o, p0, done, p, total) && Room(buf, p0, done + Escape(t, 0, st))
    modifies buf
    ensures Progress(buf, o, p0, done + Escape(t, 0, st), p', total')
  {
    p', total' := p, total;
    ghost var d, whole := done, done + Escape(t, 0, st);
    for i := 0 to |t|
      invariant Progress(buf, o, p0, d, p', total')
      invariant d + Escape(t, i, st) == whole
    {
      EscapeStep(t, i, st, d, whole);
      p', total' := AppendEscaped(buf, p', total', t[i], st, o, p0, d);
      d := d + EscapeByte(t[i], st);
    }
    EscapeDone(t, st, d);
  }

  method SerializeString(t: seq<byte>, buf: array?<byte>, p0: nat, st: Style) returns (written: int32)
    requires Room(buf, p0, Quoted(t, st))
    modifies buf
    ensures Put(buf, p0, Quoted(t, st), written)
  {
    ghost var o := if buf == null then [] else buf[..];
    var p, total: int32 := p0, 0;
    if buf != null { WroteNothing(o, p0); }
    assert [] + [QUOTE] == [QUOTE];
    p, total := Append(buf, p, total, [QUOTE], o, p0, []);
    p, total := AppendEscapes(t, buf, p, total, st, o, p0, [QUOTE]);
    p, total := Append(buf, p, total, [QUOTE], o, p0, [QUOTE] + Escape(t, 0, st));
    written := total;
  }

  /** json_serialize_string called from within a text. */
  method AppendQuoted(buf: array?<byte>, p: nat, total: int32, t: seq<byte>, st: Style, ghost o: seq<byte>,
                      ghost p0: nat, ghost done: seq<byte>)
    returns (p': nat, total': int32)
    requires Progress(buf, o, p0, done, p, total) && Room(buf, p0, done + Quoted(t, st))
    modifies buf
    ensures Progress(buf, o, p0, done + Quoted(t, st), p', total')
  {
    p' := p;
    ghost var before := if buf == null then [] else buf[..];
    var written := SerializeString(t, buf, p, st);
    if buf != null {
      p' := p' + written;
      WroteMore(before, buf[..], o, p0, done, Quoted(t, st));
    }
    total' := total + written;
  }

  method AppendKey(buf: array?<byte>, p: nat, total: int32, name: seq<byte>, st: Style, ghost o: seq<byte>,
                   ghost p0: nat, ghost done: seq<byte>)
    returns (p': nat, total': int32)
    requires Progress(buf, o, p0, done, p, total) && Room(buf, p0, done + KeyText(name, st))
    modifies buf
    ensures Progress(buf, o, p0, done + KeyText(name, st), p', total')
  {
    ghost var q := Quoted(name, st);
    assert done + KeyText(name, st) == done + q + [COLON] + (if st.pretty then [SPACE] else []);
    p', total' := AppendQuoted(buf, p, total, name, st, o, p0, done);
    p', total' := Append(buf, p', total', [COLON], o, p0, done + q);
    if st.pretty { p', total' := Append(buf, p', total', [SPACE], o, p0, done + q + [COLON]); }
  }

  method AppendSeparator(buf: array?<byte>, p: nat, total: int32, k: nat, count: nat, st: Style, ghost o: seq<byte>,
                         ghost p0: nat, ghost done: seq<byte>)
    returns (p': nat, total': int32)
    requires Progress(buf, o, p0, done, p, total) && Room(buf, p0, done + Separator(k, count, st))
    modifies buf
    ensures Progress(buf, o, p0, done + Separator(k, count, st), p', total')
  {
    p', total' := p, total;
    ghost var d := done;
    if k + 1 < count {
      p', total' := Append(buf, p', total', [COMMA], o, p0, d);
      d := d + [COMMA];
    }
    assert done + Separator(k, count, st) == d + NewlineIf(st.pretty);
    if st.pretty { p', total' := Append(buf, p', total', [NEWLINE], o, p0, d); }
  }

  /** A recursive call from within a text. */
  method AppendValue(buf: array?<byte>, p: nat, total: int32, v: Value, level: nat, st: Style, ghost o: seq<byte>,
                     ghost p0: nat, ghost done: seq<byte>)
    returns (p': nat, total': int32)
    requires WellFormed(v) && Integral(v)
    requires Progress(buf, o, p0, done, p, total) && Room(buf, p0, done + Text(v, level, st))
    modifies buf
    ensures Progress(buf, o, p0, done + Text(v, level, st), p', total')
    decreases v, 5
  {
    p' := p;
    ghost var before := if buf == null then [] else buf[..];
    var written := SerializeToBufferR(v, buf, p, level, st);
    if buf != null {
      p' := p' + written;
      WroteMore(before, buf[..], o, p0, done, Text(v, level, st));
    }
    total' := total + written;
  }

  /** The indentation and the key of an entry. */
  method AppendEntryHead(v: Value, k: nat, buf: array?<byte>, p: nat, total: int32, level: nat, st: Style,
                         ghost o: seq<byte>, ghost p0: nat, ghost done: seq<byte>)
    returns (p': nat, total': int32)
    requires k < Count(v) && Progress(buf, o, p0, done, p, total)
    requires Room(buf, p0, done + IndentIf(st.pretty, level + 1) + EntryHead(v, k, st))
    modifies buf
    ensures Progress(buf, o, p0, done + IndentIf(st.pretty, level + 1) + EntryHead(v, k, st), p', total')
  {
    p', total' := p, total;
    if st.pretty { p', total' := AppendIndent(buf, p', total', level + 1, o, p0, done); }
    ghost var d := done + IndentIf(st.pretty, level + 1);
    if v.Object? { p', total' := AppendKey(buf, p', total', v.members[k].name, st, o, p0, d); }
  }

  lemma EntryParts(v: Value, k: nat, level: nat, st: Style, done: seq<byte>)
    requires k < Count(v)
    ensures done + EntryText(v, k, level, st)
         == done + IndentIf(st.pretty, level + 1) + EntryHead(v, k, st) + ChildText(v, k, level, st) +
            Separator(k, Count(v), st)
  {
    Regroup(done, IndentIf(st.pretty, level + 1), EntryHead(v, k, st), ChildText(v, k, level, st),
            Separator(k, Count(v), st));
  }

  lemma Regroup(x: seq<byte>, a: seq<byte>, b: seq<byte>, c: seq<byte>, d: seq<byte>)
    ensures x + (a + b + c + d) == x + a + b + c + d
  {
  }

  /** The body of the loops over items and members. */
  method AppendEntry(v: Value, k: nat, buf: array?<byte>, p: nat, total: int32, level: nat, st: Style,
                     ghost o: seq<byte>, ghost p0: nat, ghost done: seq<byte>, ghost after: seq<byte>)
    returns (p': nat, total': int32)
    requires k < Count(v) && WellFormed(v) && Integral(v) && Progress(buf, o, p0, done, p, total)
    requires after == done + EntryText(v, k, level, st) && Room(buf, p0, after)
    modifies buf
    ensures Progress(buf, o, p0, after, p', total')
    decreases v, 0
  {
    ghost var d := done + IndentIf(st.pretty, level + 1) + EntryHead(v, k, st);
    ghost var c, e := ChildText(v, k, level, st), Separator(k, Count(v), st);
    EntryParts(v, k, level, st, done);
    p', total' := AppendEntryHead(v, k, buf, p, total, level, st, o, p0, done);
    p', total' := AppendValue(buf, p', total', Child(v, k), level + 1, st, o, p0, d);
    p', total' := AppendSeparator(buf, p', total', k, Count(v), st, o, p0, d + c);
  }

  lemma EntriesStep(v: Value, k: nat, level: nat, st: Style, d: seq<byte>, whole: seq<byte>)
    returns (d': seq<byte>)
    requires k < Count(v) && EntriesLeft(v, k, level, st, d, whole)
    ensures d' == d + EntryText(v, k, level, st) && EntriesLeft(v, k + 1, level, st, d', whole)
    ensures |d'| <= |whole|
  {
    var x, y := EntryText(v, k, level, st), EntriesText(v, k + 1, level, st);
    d' := d + x;
    assert EntriesText(v, k, level, st) == x + y;
    assert d + (x + y) == d + x + y;
  }

  /** Entries k.. are what is left of the text. */
  ghost predicate EntriesLeft(v: Value, k: nat, level: nat, st: Style, d: seq<byte>, whole: seq<byte>) {
    k <= Count(v) && d + EntriesText(v, k, level, st) == whole
  }

  lemma EntriesDone(v: Value, level: nat, st: Style, d: seq<byte>, whole: seq<byte>)
    requires EntriesLeft(v, Count(v), level, st, d, whole)
    ensures d == whole
  {
  }

  /** The loops over items and members. */
  method AppendEntries(v: Value, buf: array?<byte>, p: nat, total: int32, level: nat, st: Style, ghost o: seq<byte>,
                       ghost p0: nat, ghost done: seq<byte>, ghost whole: seq<byte>)
    returns (p': nat, total': int32)
    requires WellFormed(v) && Integral(v) && Progress(buf, o, p0, done, p, total)
    requires whole == done + EntriesText(v, 0, level, st) && Room(buf, p0, whole)
    modifies buf
    ensures Progress(buf, o, p0, whole, p', total')
    decreases v, 1
  {
    p', total' := p, total;
    ghost var d := done;
    for k := 0 to Count(v)
      invariant Progress(buf, o, p0, d, p', total')
      invariant EntriesLeft(v, k, level, st, d, whole)
    {
      ghost var d' := EntriesStep(v, k, level, st, d, whole);
      p', total' := AppendEntry(v, k, buf, p', total', level, st, o, p0, d, d');
      d := d';
    }
    EntriesDone(v, level, st, d, whole);
  }

  /** The array and object cases, which differ in the brackets and the keys only. */
  method SerializeContainer(v: Value, buf: array?<byte>, p0: nat, level: nat, st: Style) returns (written: int32)
    requires IsContainer(v) && WellFormed(v) && Integral(v) && Room(buf, p0, Text(v, level, st))
    modifies buf
    ensures Put(buf, p0, Text(v, level, st), written)
    decreases v, 3
  {
    var multi := Count(v) > 0 && st.pretty;
    ghost var open, done, text := ContainerParts(v, level, st, multi);
    written := SerializeParts(v, buf, p0, level, st, multi, open, done, text);
  }

  /** The three parts of a container's text, one behind the other. */
  method SerializeParts(v: Value, buf: array?<byte>, p0: nat, level: nat, st: Style, multi: bool,
                        ghost open: seq<byte>, ghost done: seq<byte>, ghost text: seq<byte>)
    returns (written: int32)
    requires WellFormed(v) && Integral(v) && Room(buf, p0, text)
    requires open == [Open(v)] + NewlineIf(multi) && done == open + EntriesText(v, 0, level, st)
    requires text == done + IndentIf(multi, level) + [Close(v)]
    modifies buf
    ensures Put(buf, p0, text, written)
    decreases v, 2
  {
    var p, total: int32 := p0, 0;
    ghost var o := if buf == null then [] else buf[..];
    if buf != null { WroteNothing(o, p0); }
    p, total := AppendOpen(v, buf, p, total, multi, o, p0);
    p, total := AppendEntries(v, buf, p, total, level, st, o, p0, open, done);
    p, total := AppendClose(v, buf, p, total, multi, level, o, p0, done);
    written := total;
  }

  lemma ContainerParts(v: Value, level: nat, st: Style, multi: bool)
    returns (open: seq<byte>, done: seq<byte>, text: seq<byte>)
    requires IsContainer(v) && multi == (Count(v) > 0 && st.pretty)
    ensures open == [Open(v)] + NewlineIf(multi) && done == open + EntriesText(v, 0, level, st)
    ensures text == done + IndentIf(multi, level) + [Close(v)] == Text(v, level, st)
  {
    open := [Open(v)] + NewlineIf(multi);
    done := open + EntriesText(v, 0, level, st);
    text := Text(v, level, st);
  }

  method AppendOpen(v: Value, buf: array?<byte>, p: nat, total: int32, multi: bool, ghost o: seq<byte>, ghost p0: nat)
    returns (p': nat, total': int32)
    requires Progress(buf, o, p0, [], p, total) && Room(buf, p0, [Open(v)] + NewlineIf(multi))
    modifies buf
    ensures Progress(buf, o, p0, [Open(v)] + NewlineIf(multi), p', total')
  {
    assert [] + [Open(v)] == [Open(v)];
    p', total' := Append(buf, p, total, [Open(v)], o, p0, []);
    if multi { p', total' := Append(buf, p', total', [NEWLINE], o, p0, [Open(v)]); }
  }

  method AppendClose(v: Value, buf: array?<byte>, p: nat, total: int32, multi: bool, level: nat, ghost o: seq<byte>,
                     ghost p0: nat, ghost done: seq<byte>)
    returns (p': nat, total': int32)
    requires Progress(buf, o, p0, done, p, total) && Room(buf, p0, done + IndentIf(multi, level) + [Close(v)])
    modifies buf
    ensures Progress(buf, o, p0, done + IndentIf(multi, level) + [Close(v)], p', total')
    ensures buf != null ==> p' < buf.Length && buf[p'] == 0
  {
    p', total' := p, total;
    if multi { p', total' := AppendIndent(buf, p', total', level, o, p0, done); }
    p', total' := Append(buf, p', total', [Close(v)], o, p0, done + IndentIf(multi, level));
  }

  /** json_serialize_to_buffer_r. The number case prints into buf, or into a scratch
      buffer of NUM_BUF_SIZE bytes when it measures. */
  method SerializeToBufferR(v: Value, buf: array?<byte>, p0: nat, level: nat, st: Style) returns (written: int32)
    requires WellFormed(v) && Integral(v) && Room(buf, p0, Text(v, level, st))
    modifies buf
    ensures Put(buf, p0, Text(v, level, st), written)
    decreases v, 4
  {
    match v
    case Array(_) => written := SerializeContainer(v, buf, p0, level, st);
    case Object(_) => written := SerializeContainer(v, buf, p0, level, st);
    case String(chars) => written := SerializeString(chars, buf, p0, st);
    case Bool(b) => written := AppendString(buf, p0, if b then TRUE_TOKEN else FALSE_TOKEN);
    case Number(neg, mag) =>
      NumberTextShort(neg, mag);
      assert |NumberText(neg, mag)| + 1 <= NUM_BUF_SIZE;
      written := AppendString(buf, p0, NumberText(neg, mag));
    case Null => written := AppendString(buf, p0, NULL_TOKEN);
  }

  /** json_serialization_size and json_serialization_size_pretty. */
  method SerializationSize(v: Value, st: Style) returns (size: nat)
    requires WellFormed(v) && Integral(v) && |Text(v, 0, st)| <= INT_MAX
    ensures size == |Text(v, 0, st)| + 1
  {
    var res := SerializeToBufferR(v, null, 0, 0, st);
    size := res as int + 1;
  }

  /** json_serialize_to_buffer and its pretty form: refuses a buffer that cannot hold
      the text and its NUL, and writes nothing behind them. */
  method SerializeToBuffer(v: Value, buf: array<byte>, size: nat, st: Style) returns (ok: bool)
    requires WellFormed(v) && Integral(v) && |Text(v, 0, st)| <= INT_MAX && size <= buf.Length
    modifies buf
    ensures ok <==> |Text(v, 0, st)| < size
    ensures ok ==> buf[..] == Text(v, 0, st) + [0] + old(buf[..])[|Text(v, 0, st)| + 1..]
    ensures !ok ==> buf[..] == old(buf[..])
  {
    var needed := SerializationSize(v, st);
    if size < needed { return false; }
    var written := SerializeToBufferR(v, buf, 0, 0, st);
    ok := true;
    ghost var t := Text(v, 0, st);
    assert buf[..|t|] == t;
    assert buf[..] == buf[..|t|] + [buf[|t|]] + buf[|t| + 1..];
  }

  /** json_serialize_to_string and its pretty form: the measured size is exactly what
      the writing pass fills. */
  method SerializeToString(v: Value, st: Style) returns (buf: array<byte>)
    requires WellFormed(v) && Integral(v) && |Text(v, 0, st)| <= INT_MAX
    ensures fresh(buf) && buf[..] == Text(v, 0, st) + [0]
  {
    var size := SerializationSize(v, st);
    buf := new byte[size];
    ghost var before := buf[..];
    var ok := SerializeToBuffer(v, buf, size, st);
    assert before[|Text(v, 0, st)| + 1..] == [];
  }
}
