/** The text json_serialize_to_buffer_r produces, compact or pretty, with or
    without slash escaping. */
module JsonText {
  import opened Bytes
  import opened JsonTree

  const NULL_TOKEN: seq<byte> := [110, 117, 108, 108]
  const TRUE_TOKEN: seq<byte> := [116, 114, 117, 101]
  const FALSE_TOKEN: seq<byte> := [102, 97, 108, 115, 101]

  /** The is_pretty argument and the global parson_escape_slashes. */
  datatype Style = Style(pretty: bool, escapeSlashes: bool)

  function HexDigit(d: nat): byte
    requires d < 16
  {
    if d < 10 then ZERO + d else 'a' as int + d - 10
  }

  function EscapeByte(c: byte, st: Style): seq<byte> {
    if c == QUOTE then [BACKSLASH, QUOTE]
    else if c == BACKSLASH then [BACKSLASH, BACKSLASH]
    else if c == 8 then [BACKSLASH, 'b' as int]
    else if c == 12 then [BACKSLASH, 'f' as int]
    else if c == 10 then [BACKSLASH, 'n' as int]
    else if c == 13 then [BACKSLASH, 'r' as int]
    else if c == 9 then [BACKSLASH, 't' as int]
    else if c < 32 then [BACKSLASH, 'u' as int, ZERO, ZERO, HexDigit(c / 16), HexDigit(c % 16)]
    else if c == SLASH && st.escapeSlashes then [BACKSLASH, SLASH]
    else [c]
  }

  function Escape(t: seq<byte>, k: nat, st: Style): seq<byte>
    requires k <= |t|
    decreases |t| - k
  {
    if k == |t| then [] else EscapeByte(t[k], st) + Escape(t, k + 1, st)
  }

  function Quoted(t: seq<byte>, st: Style): seq<byte> {
    [QUOTE] + Escape(t, 0, st) + [QUOTE]
  }

  function NumberText(neg: bool, mag: nat): seq<byte> {
    (if neg then [MINUS] else []) + Decimal(mag)
  }

  function Indent(level: nat): seq<byte> {
    if level == 0 then [] else [SPACE, SPACE, SPACE, SPACE] + Indent(level - 1)
  }

  function NewlineIf(b: bool): seq<byte> {
    if b then [NEWLINE] else []
  }

  function IndentIf(b: bool, level: nat): seq<byte> {
    if b then Indent(level) else []
  }

  /** What follows entry k of a container with the given count. */
  function Separator(k: nat, count: nat, st: Style): seq<byte> {
    (if k + 1 < count then [COMMA] else []) + NewlineIf(st.pretty)
  }

  function KeyText(name: seq<byte>, st: Style): seq<byte> {
    Quoted(name, st) + [COLON] + (if st.pretty then [SPACE] else [])
  }

  /** Entry k of a container without its child: nothing, or the key. */
  function EntryHead(v: Value, k: nat, st: Style): seq<byte>
    requires k < Count(v)
  {
    if v.Object? then KeyText(v.members[k].name, st) else []
  }

  function ChildText(v: Value, k: nat, level: nat, st: Style): seq<byte>
    requires k < Count(v)
    decreases v, 0, 0
  {
    Text(Child(v, k), level + 1, st)
  }

  function EntryText(v: Value, k: nat, level: nat, st: Style): seq<byte>
    requires k < Count(v)
    decreases v, 0, 1
  {
    IndentIf(st.pretty, level + 1) + EntryHead(v, k, st) + ChildText(v, k, level, st) + Separator(k, Count(v), st)
  }

  /** Entries k.. of the container v. */
  function EntriesText(v: Value, k: nat, level: nat, st: Style): seq<byte>
    requires k <= Count(v)
    decreases v, 1, Count(v) - k
  {
    if k == Count(v) then []
    else EntryText(v, k, level, st) + EntriesText(v, k + 1, level, st)
  }

  function Open(v: Value): byte {
    if v.Object? then LBRACE else LBRACKET
  }

  function Close(v: Value): byte {
    if v.Object? then RBRACE else RBRACKET
  }

  function Text(v: Value, level: nat, st: Style): seq<byte>
    decreases v, 2
  {
    match v
    case Null => NULL_TOKEN
    case Bool(b) => if b then TRUE_TOKEN else FALSE_TOKEN
    case Number(neg, mag) => NumberText(neg, mag)
    case Real(token) => token
    case String(chars) => Quoted(chars, st)
    case _ =>
      var multi := Count(v) > 0 && st.pretty;
      [Open(v)] + NewlineIf(multi) + EntriesText(v, 0, level, st) + IndentIf(multi, level) + [Close(v)]
  }

  // --------------------------------------------------------------------- the layout

  function Blank(n: nat): (t: seq<byte>)
    ensures |t| == n && forall k :: 0 <= k < n ==> t[k] == SPACE
  {
    seq(n, _ => SPACE)
  }

  lemma {:induction false} IndentIsBlank(level: nat)
    ensures Indent(level) == Blank(4 * level)
  {
    if level > 0 { IndentIsBlank(level - 1); }
  }

  /** The entries from k on, with a comma between two. In pretty text each starts a line of
      its own, four spaces in for every level, and its key is followed by colon and space. */
  function Entries(v: Value, k: nat, level: nat, st: Style): seq<byte>
    requires k < Count(v)
    decreases Count(v) - k
  {
    (if st.pretty then [NEWLINE] + Blank(4 * (level + 1)) else [])
    + (if !v.Object? then []
       else Quoted(v.members[k].name, st) + if st.pretty then [COLON, SPACE] else [COLON])
    + Text(Child(v, k), level + 1, st)
    + if k + 1 < Count(v) then [COMMA] + Entries(v, k + 1, level, st) else []
  }

  lemma LastLaid(n: seq<byte>, indent: seq<byte>, head: seq<byte>, child: seq<byte>)
    ensures n + (indent + head + child + ([] + n) + []) == (n + indent) + head + child + [] + n
  {
  }

  lemma OneLaid(n: seq<byte>, indent: seq<byte>, head: seq<byte>, child: seq<byte>, rest: seq<byte>, more: seq<byte>)
    requires n + rest == more + n
    ensures n + (indent + head + child + ([COMMA] + n) + rest) == (n + indent) + head + child + ([COMMA] + more) + n
  {
    var x := n + indent + head + child + [COMMA];
    assert n + (indent + head + child + ([COMMA] + n) + rest) == x + (n + rest);
    assert x + (more + n) == (n + indent) + head + child + ([COMMA] + more) + n;
  }

  lemma {:induction false} EntriesLaid(v: Value, k: nat, level: nat, st: Style)
    requires k < Count(v)
    ensures NewlineIf(st.pretty) + EntriesText(v, k, level, st) == Entries(v, k, level, st) + NewlineIf(st.pretty)
    decreases Count(v) - k
  {
    var n, indent := NewlineIf(st.pretty), IndentIf(st.pretty, level + 1);
    var head, child := EntryHead(v, k, st), ChildText(v, k, level, st);
    IndentIsBlank(level + 1);
    HeadSpelt(v, k, st);
    if k + 1 < Count(v) {
      EntriesLaid(v, k + 1, level, st);
      OneLaid(n, indent, head, child, EntriesText(v, k + 1, level, st), Entries(v, k + 1, level, st));
    } else {
      LastLaid(n, indent, head, child);
    }
  }

  lemma HeadSpelt(v: Value, k: nat, st: Style)
    requires k < Count(v)
    ensures EntryHead(v, k, st) ==
              if !v.Object? then []
              else Quoted(v.members[k].name, st) + if st.pretty then [COLON, SPACE] else [COLON]
  {
  }

  /** A container is laid out as its entries between brackets; in pretty text the closing
      one starts a line. Compact text has nothing but brackets, commas, colons, words,
      numbers and quoted strings. */
  lemma Layout(v: Value, level: nat, st: Style)
    requires IsContainer(v)
    ensures Text(v, level, st) ==
              if Count(v) == 0 then [Open(v), Close(v)]
              else [Open(v)] + Entries(v, 0, level, st)
                   + (if st.pretty then [NEWLINE] + Blank(4 * level) else []) + [Close(v)]
  {
    if Count(v) > 0 {
      var n, indent := NewlineIf(st.pretty), IndentIf(st.pretty, level);
      EntriesLaid(v, 0, level, st);
      IndentIsBlank(level);
      Bracketed([Open(v)], n, EntriesText(v, 0, level, st), Entries(v, 0, level, st), indent, [Close(v)]);
    }
  }

  lemma Bracketed(o: seq<byte>, n: seq<byte>, t: seq<byte>, e: seq<byte>, i: seq<byte>, c: seq<byte>)
    requires n + t == e + n
    ensures o + n + t + i + c == o + e + (n + i) + c
  {
    assert o + n + t == o + (n + t) == o + e + n;
  }
}
