/** The packed form a packet travels in: send_packet and rebuild_packet. */
module Wire {
  import opened Bytes

  const TOPIC_LEN := 50
  const CONTENT_LEN := 1500
  const PACKET_LEN := 1560
  const TOPIC_AT := 6
  const TYPE_AT := TOPIC_AT + TOPIC_LEN
  const CONTENT_AT := TYPE_AT + 1

  /** struct packet: the fields at their offsets, and three bytes of padding. */
  type Packet = p: seq<byte> | |p| == PACKET_LEN witness seq(PACKET_LEN, _ => 0)

  datatype Sizes = Sizes(toReceive: nat, topic: nat, content: nat)

  function Ip(p: Packet): seq<byte> { p[..4] }
  function Port(p: Packet): seq<byte> { p[4..TOPIC_AT] }
  function Topic(p: Packet): (t: seq<byte>) ensures |t| == TOPIC_LEN { p[TOPIC_AT..TYPE_AT] }
  function DataType(p: Packet): byte { p[TYPE_AT] }
  function Content(p: Packet): (c: seq<byte>) ensures |c| == CONTENT_LEN { p[CONTENT_AT..CONTENT_AT + CONTENT_LEN] }

  /** memset(&pkt, 0, PACKET_LEN) cleared the padding. */
  predicate Padded(p: Packet) {
    p[CONTENT_AT + CONTENT_LEN..] == [0, 0, 0]
  }

  /** The bytes of a char field that count: up to and with its NUL, or all of it. */
  function Counted(field: seq<byte>): (n: nat)
    ensures n <= |field|
    ensures forall k :: 0 <= k < n - 1 ==> field[k] != 0
    ensures n == |field| || (n > 0 && field[n - 1] == 0)
  {
    if field == [] then 0 else if field[0] == 0 then 1 else 1 + Counted(field[1..])
  }

  function ContentSize(p: Packet): (n: nat)
    requires DataType(p) <= 3
    ensures n <= CONTENT_LEN
  {
    match DataType(p)
    case 0 => 5
    case 1 => 2
    case 2 => 6
    case _ => Counted(Content(p))
  }

  function SizesOf(p: Packet): Sizes
    requires DataType(p) <= 3
  {
    Sizes(7 + Counted(Topic(p)) + ContentSize(p), Counted(Topic(p)), ContentSize(p))
  }

  /** What travels. */
  function Packed(p: Packet): (w: seq<byte>)
    requires DataType(p) <= 3
    ensures |w| == SizesOf(p).toReceive
  {
    Ip(p) + Port(p) + Topic(p)[..Counted(Topic(p))] + [DataType(p)] + Content(p)[..ContentSize(p)]
  }

  function Zeros(n: nat): (z: seq<byte>)
    ensures |z| == n && forall k :: 0 <= k < n ==> z[k] == 0
  {
    seq(n, _ => 0)
  }

  function Filled(field: seq<byte>, n: nat): (f: seq<byte>)
    requires |field| <= n
    ensures |f| == n
  {
    field + Zeros(n - |field|)
  }

  /** Sizes that rebuild_packet can be handed: the packet fits its fields. */
  predicate Fits(sz: Sizes, w: seq<byte>) {
    && sz.topic <= TOPIC_LEN && sz.content <= CONTENT_LEN
    && 7 + sz.topic + sz.content <= |w|
  }

  /** What rebuild_packet makes of the sizes and the bytes. */
  function Rebuilt(sz: Sizes, w: seq<byte>): (p: Packet)
    requires Fits(sz, w)
  {
    var t := 6 + sz.topic;
    w[..6] + Filled(w[6..t], TOPIC_LEN) + [w[t]] + Filled(w[t + 1..t + 1 + sz.content], CONTENT_LEN) + [0, 0, 0]
  }

  // ------------------------------------------------------------------ round trip

  lemma {:induction false} CountedFilled(field: seq<byte>, n: nat)
    requires |field| == n
    ensures Counted(Filled(field[..Counted(field)], n)) == Counted(field)
  {
    if field != [] && field[0] != 0 {
      var rest := field[1..];
      CountedFilled(rest, n - 1);
      var f := Filled(field[..Counted(field)], n);
      assert field[..Counted(field)] == [field[0]] + rest[..Counted(rest)];
      assert f[1..] == Filled(rest[..Counted(rest)], n - 1);
    }
  }

  lemma Parts(sz: Sizes, w: seq<byte>)
    requires Fits(sz, w)
    ensures var p := Rebuilt(sz, w); var t := 6 + sz.topic;
      && Ip(p) == w[..4] && Port(p) == w[4..6] && DataType(p) == w[t] && Padded(p)
      && Topic(p) == Filled(w[6..t], TOPIC_LEN)
      && Content(p) == Filled(w[t + 1..t + 1 + sz.content], CONTENT_LEN)
  {
  }

  lemma FiveParts(a: seq<byte>, b: seq<byte>, c: seq<byte>, d: byte, e: seq<byte>)
    requires |a| == 4 && |b| == 2
    ensures var w := a + b + c + [d] + e; var t := 6 + |c|;
      w[..4] == a && w[4..6] == b && w[6..t] == c && w[t] == d && w[t + 1..t + 1 + |e|] == e
  {
    var t := 6 + |c|;
    assert (a + b + c + [d] + e)[..t] == a + b + c;
    assert (a + b + c)[..6] == a + b && (a + b + c)[6..] == c;
    assert (a + b + c + [d] + e)[t + 1..] == e;
  }

  lemma PackedParts(p: Packet)
    requires DataType(p) <= 3
    ensures var w := Packed(p); var t := 6 + Counted(Topic(p));
      && Fits(SizesOf(p), w)
      && w[..4] == Ip(p) && w[4..6] == Port(p) && w[t] == DataType(p)
      && w[6..t] == Topic(p)[..Counted(Topic(p))]
      && w[t + 1..t + 1 + ContentSize(p)] == Content(p)[..ContentSize(p)]
  {
    FiveParts(Ip(p), Port(p), Topic(p)[..Counted(Topic(p))], DataType(p), Content(p)[..ContentSize(p)]);
  }

  /** Rebuilding recovers address, port and type, the topic up to its NUL or fifty
      bytes and the content that was counted, with zeros behind both. */
  lemma RebuildsPacked(p: Packet)
    requires DataType(p) <= 3
    ensures Fits(SizesOf(p), Packed(p)) && SizesOf(p).toReceive <= 1557
    ensures var r := Rebuilt(SizesOf(p), Packed(p));
      && Ip(r) == Ip(p) && Port(r) == Port(p) && DataType(r) == DataType(p) && Padded(r)
      && Topic(r) == Filled(Topic(p)[..Counted(Topic(p))], TOPIC_LEN)
      && Content(r) == Filled(Content(p)[..ContentSize(p)], CONTENT_LEN)
  {
    PackedParts(p);
    Parts(SizesOf(p), Packed(p));
  }

  // ------------------------------------------------------- what a subscriber prints

  /** The characters of a field, up to its NUL or all of them. */
  function CText(field: seq<byte>): seq<byte> {
    var n := Counted(field);
    if n > 0 && field[n - 1] == 0 then field[..n - 1] else field
  }

  /** ntohs and ntohl of the bytes at i. */
  function Big16(c: seq<byte>, i: nat): nat
    requires i + 2 <= |c|
  {
    0x100 * (c[i] as nat) + c[i + 1]
  }

  function Big32(c: seq<byte>, i: nat): nat
    requires i + 4 <= |c|
  {
    0x1_0000 * Big16(c, i) + Big16(c, i + 2)
  }

  /** INT: a sign and a number. SHORT_REAL: a number of hundredths. FLOAT: a sign, a number
      and the power of ten that divides it. STRING: characters. */
  datatype Printed =
    | Int(negative: bool, number: nat)
    | ShortReal(hundredths: nat)
    | Float(negative: bool, number: nat, power: byte)
    | Text(characters: seq<byte>)

  function PrintedOf(p: Packet): Printed
    requires DataType(p) <= 3
  {
    var c := Content(p);
    match DataType(p)
    case 0 => Int(c[0] != 0, Big32(c, 1))
    case 1 => ShortReal(Big16(c, 0))
    case 2 => Float(c[0] != 0, Big32(c, 1), c[5])
    case _ => Text(CText(c))
  }

  lemma FilledKeeps(field: seq<byte>, n: nat, k: nat)
    requires k < n <= |field|
    ensures Filled(field[..n], |field|)[k] == field[k]
  {
  }

  lemma CTextsAgree(f: seq<byte>, g: seq<byte>, n: nat)
    requires |f| == |g| && Counted(f) == Counted(g) == n && f[..n] == g[..n]
    ensures CText(f) == CText(g)
  {
    if n > 0 && f[n - 1] == 0 {
      assert f[n - 1] == f[..n][n - 1] == g[..n][n - 1] == g[n - 1];
      assert f[..n - 1] == f[..n][..n - 1] == g[..n][..n - 1] == g[..n - 1];
    } else {
      assert n == |f| && f == f[..n] == g[..n] == g;
    }
  }

  lemma FilledStart(field: seq<byte>, n: nat, f: seq<byte>)
    requires n <= |field| && f == Filled(field[..n], |field|)
    ensures f[..n] == field[..n]
  {
  }

  lemma CTextFilled(field: seq<byte>)
    ensures CText(Filled(field[..Counted(field)], |field|)) == CText(field)
  {
    var n := Counted(field);
    var f := Filled(field[..n], |field|);
    CountedFilled(field, |field|);
    FilledStart(field, n, f);
    CTextsAgree(field, f, n);
  }

  /** htons and htonl. */
  function Word16(n: nat): seq<byte>
    requires n < 0x1_0000
  {
    [n / 0x100, n % 0x100]
  }

  function Word32(n: nat): seq<byte>
    requires n < 0x1_0000_0000
  {
    Word16(n / 0x1_0000) + Word16(n % 0x1_0000)
  }

  function SignByte(negative: bool): byte {
    if negative then 1 else 0
  }

  /** A value that fits its fields. */
  predicate Printable(x: Printed) {
    match x
    case Int(_, number) => number < 0x1_0000_0000
    case ShortReal(hundredths) => hundredths < 0x1_0000
    case Float(_, number, _) => number < 0x1_0000_0000
    case Text(characters) => forall k :: 0 <= k < |characters| ==> characters[k] != 0
  }

  /** The content of a datagram that publishes a value: a sign, the number in network
      order, the power of ten. */
  function ContentOf(x: Printed): seq<byte>
    requires Printable(x)
  {
    match x
    case Int(negative, number) => [SignByte(negative)] + Word32(number)
    case ShortReal(hundredths) => Word16(hundredths)
    case Float(negative, number, power) => [SignByte(negative)] + Word32(number) + [power]
    case Text(characters) => characters + [0]
  }

  function TypeOf(x: Printed): byte {
    match x
    case Int(_, _) => 0
    case ShortReal(_) => 1
    case Float(_, _, _) => 2
    case Text(_) => 3
  }

  /** A subscriber prints the value that was published. */
  lemma PrintsWhatWasPublished(p: Packet, x: Printed)
    requires Printable(x) && DataType(p) == TypeOf(x) && ContentOf(x) <= Content(p)
    ensures PrintedOf(p) == x
  {
    var c := Content(p);
    match x {
      case Int(negative, number) => NumberBehindSign(c, negative, number);
      case ShortReal(hundredths) => Big16Reads(c, 0, hundredths);
      case Float(negative, number, power) =>
        NumberBehindSign(c, negative, number);
        assert c[5] == ContentOf(x)[5];
      case Text(characters) => CTextReads(characters, c);
    }
  }

  lemma Big16Reads(c: seq<byte>, i: nat, n: nat)
    requires n < 0x1_0000 && i + 2 <= |c| && c[i..i + 2] == Word16(n)
    ensures Big16(c, i) == n
  {
    assert c[i] == Word16(n)[0] && c[i + 1] == Word16(n)[1];
  }

  lemma Big32Reads(c: seq<byte>, i: nat, n: nat)
    requires n < 0x1_0000_0000 && i + 4 <= |c| && c[i..i + 4] == Word32(n)
    ensures Big32(c, i) == n
  {
    assert c[i..i + 2] == c[i..i + 4][..2] && c[i + 2..i + 4] == c[i..i + 4][2..];
    Big16Reads(c, i, n / 0x1_0000);
    Big16Reads(c, i + 2, n % 0x1_0000);
  }

  lemma NumberBehindSign(c: seq<byte>, negative: bool, n: nat)
    requires n < 0x1_0000_0000 && [SignByte(negative)] + Word32(n) <= c
    ensures (c[0] != 0) == negative && Big32(c, 1) == n
  {
    var t := [SignByte(negative)] + Word32(n);
    assert c[0] == t[0] && c[1..5] == t[1..5] == Word32(n);
    Big32Reads(c, 1, n);
  }

  lemma {:induction false} CTextReads(t: seq<byte>, c: seq<byte>)
    requires t + [0] <= c && forall k :: 0 <= k < |t| ==> t[k] != 0
    ensures CText(c) == t
  {
    var n := Counted(c);
    assert c[|t|] == (t + [0])[|t|] == 0;
    assert forall k :: 0 <= k < |t| ==> c[k] == (t + [0])[k];
    assert n == |t| + 1;
    assert c[..|t|] == t;
  }

  /** What was published is what is printed. */
  lemma PrintedSurvives(p: Packet)
    requires DataType(p) <= 3
    ensures Fits(SizesOf(p), Packed(p))
    ensures var r := Rebuilt(SizesOf(p), Packed(p));
      DataType(r) <= 3 && PrintedOf(r) == PrintedOf(p) && CText(Topic(r)) == CText(Topic(p))
  {
    RebuildsPacked(p);
    var c := Content(p);
    CTextFilled(Topic(p));
    if DataType(p) == 3 {
      CTextFilled(c);
    } else {
      forall k | 0 <= k < ContentSize(p) ensures Filled(c[..ContentSize(p)], CONTENT_LEN)[k] == c[k] {
        FilledKeeps(c, ContentSize(p), k);
      }
    }
  }

  /** A rebuilt packet travels as the same bytes. */
  lemma RebuiltPacksAlike(p: Packet)
    requires DataType(p) <= 3
    ensures Fits(SizesOf(p), Packed(p))
    ensures var r := Rebuilt(SizesOf(p), Packed(p));
      DataType(r) <= 3 && SizesOf(r) == SizesOf(p) && Packed(r) == Packed(p)
  {
    RebuildsPacked(p);
    var r := Rebuilt(SizesOf(p), Packed(p));
    CountedFilled(Topic(p), TOPIC_LEN);
    assert Topic(r)[..Counted(Topic(p))] == Topic(p)[..Counted(Topic(p))];
    if DataType(p) == 3 { CountedFilled(Content(p), CONTENT_LEN); }
    assert Content(r)[..ContentSize(p)] == Content(p)[..ContentSize(p)];
  }

  /** Two packets travel as the same bytes exactly when subscribers rebuild the same
      packet from them: nothing a subscriber sees is lost or confused on the way. */
  lemma PackedTellsApart(p: Packet, q: Packet)
    requires DataType(p) <= 3 && DataType(q) <= 3
    ensures Fits(SizesOf(p), Packed(p)) && Fits(SizesOf(q), Packed(q))
    ensures SizesOf(p) == SizesOf(q) && Packed(p) == Packed(q) <==>
              Rebuilt(SizesOf(p), Packed(p)) == Rebuilt(SizesOf(q), Packed(q))
  {
    RebuiltPacksAlike(p);
    RebuiltPacksAlike(q);
  }

  // --------------------------------------------------------------------- methods

  /** strlen on the bytes of the struct: it may run past a full field, but never past
      the padding. */
  method Strlen(p: Packet, at: nat) returns (n: nat)
    requires Padded(p) && at < CONTENT_AT + CONTENT_LEN
    ensures at + n < PACKET_LEN && p[at + n] == 0
    ensures forall k :: at <= k < at + n ==> p[k] != 0
  {
    assert p[CONTENT_AT + CONTENT_LEN..][0] == 0;
    n := 0;
    while p[at + n] != 0
      invariant at + n <= CONTENT_AT + CONTENT_LEN
      invariant forall k :: at <= k < at + n ==> p[k] != 0
      decreases PACKET_LEN - n
    {
      n := n + 1;
    }
  }

  lemma {:induction false} CountedIs(field: seq<byte>, n: nat)
    requires forall k :: 0 <= k < n && k < |field| ==> field[k] != 0
    requires n < |field| ==> field[n] == 0
    ensures Counted(field) == if n < |field| then n + 1 else |field|
  {
    if field != [] && n > 0 { CountedIs(field[1..], n - 1); }
  }

  method MemCopy(dst: array<byte>, at: nat, src: seq<byte>)
    requires at + |src| <= dst.Length
    modifies dst
    ensures dst[..] == old(dst[..at]) + src + old(dst[at + |src|..])
  {
    var i := 0;
    while i < |src|
      invariant 0 <= i <= |src|
      invariant dst[..] == old(dst[..at]) + src[..i] + old(dst[at + i..])
    {
      dst[at + i] := src[i];
      i := i + 1;
    }
    assert src[..i] == src;
  }

  /** The sizes in the message ahead of the packet. For a data type above 3 the source
      leaves content_size unset. */
  method Measure(p: Packet) returns (topicSize: nat, contentSize: nat)
    requires DataType(p) <= 3 && Padded(p)
    ensures topicSize == Counted(Topic(p)) && contentSize == ContentSize(p)
  {
    var topicLength := Strlen(p, TOPIC_AT);
    topicSize := if topicLength < TOPIC_LEN then topicLength + 1 else TOPIC_LEN;
    CountedIs(Topic(p), topicLength);
    if DataType(p) == 0 {
      contentSize := 5;
    } else if DataType(p) == 1 {
      contentSize := 2;
    } else if DataType(p) == 2 {
      contentSize := 6;
    } else {
      var contentLength := Strlen(p, CONTENT_AT);
      contentSize := if contentLength < CONTENT_LEN then contentLength + 1 else CONTENT_LEN;
      CountedIs(Content(p), contentLength);
    }
  }

  /** One memcpy of the packing: behind the bytes that are done. */
  method Append(buffer: array<byte>, toReceive: nat, src: seq<byte>, ghost done: seq<byte>) returns (next: nat)
    requires toReceive + |src| <= buffer.Length && buffer[..toReceive] == done
    modifies buffer
    ensures next == toReceive + |src| && buffer[..next] == done + src
  {
    MemCopy(buffer, toReceive, src);
    next := toReceive + |src|;
  }

  /** Client::send_packet: the sizes, and the buffer whose first to_receive bytes are
      sent. */
  method SendPacket(p: Packet) returns (sz: Sizes, buffer: array<byte>)
    requires DataType(p) <= 3 && Padded(p)
    ensures fresh(buffer) && buffer.Length == PACKET_LEN
    ensures sz == SizesOf(p) && sz.toReceive <= PACKET_LEN && buffer[..sz.toReceive] == Packed(p)
  {
    var topicSize, contentSize := Measure(p);
    buffer := new byte[PACKET_LEN](_ => 0);
    var topic, content := Topic(p)[..topicSize], Content(p)[..contentSize];
    var toReceive := Append(buffer, 0, Ip(p), []);
    toReceive := Append(buffer, toReceive, Port(p), Ip(p));
    toReceive := Append(buffer, toReceive, topic, Ip(p) + Port(p));
    toReceive := Append(buffer, toReceive, [DataType(p)], Ip(p) + Port(p) + topic);
    toReceive := Append(buffer, toReceive, content, Ip(p) + Port(p) + topic + [DataType(p)]);
    sz := Sizes(toReceive, topicSize, contentSize);
  }

  /** One memcpy of the unpacking: into the next field of a packet that is still zero. */
  method FillField(pkt: array<byte>, at: nat, src: seq<byte>, ghost width: nat, ghost done: seq<byte>)
    requires |src| <= width && at + width <= pkt.Length
    requires pkt[..at] == done && pkt[at..] == Zeros(pkt.Length - at)
    modifies pkt
    ensures pkt[..at + width] == done + Filled(src, width)
    ensures pkt[at + width..] == Zeros(pkt.Length - at - width)
  {
    assert pkt[at + |src|..] == Zeros(pkt.Length - at - |src|) by {
      assert pkt[at + |src|..] == pkt[at..][|src|..];
    }
    MemCopy(pkt, at, src);
    FieldFilled(pkt[..], done, src, width);
  }

  lemma FieldFilled(w: seq<byte>, done: seq<byte>, src: seq<byte>, width: nat)
    requires |src| <= width && |done| + width <= |w|
    requires w == done + src + Zeros(|w| - |done| - |src|)
    ensures w[..|done| + width] == done + Filled(src, width)
    ensures w[|done| + width..] == Zeros(|w| - |done| - width)
  {
  }

  /** rebuild_packet: the fields are filled from a moving offset into the buffer. */
  method RebuildPacket(sz: Sizes, buffer: array<byte>) returns (pkt: array<byte>)
    requires Fits(sz, buffer[..])
    ensures fresh(pkt) && pkt.Length == PACKET_LEN && pkt[..] == Rebuilt(sz, buffer[..])
  {
    pkt := new byte[PACKET_LEN](_ => 0);
    var offset := 0;
    var ip := buffer[offset..offset + 4];
    FillField(pkt, 0, ip, 4, []);
    offset := offset + 4;
    var port := buffer[offset..offset + 2];
    FillField(pkt, 4, port, 2, ip);
    offset := offset + 2;
    var topic := buffer[offset..offset + sz.topic];
    FillField(pkt, TOPIC_AT, topic, TOPIC_LEN, ip + port);
    offset := offset + sz.topic;
    var kind := buffer[offset..offset + 1];
    FillField(pkt, TYPE_AT, kind, 1, ip + port + Filled(topic, TOPIC_LEN));
    offset := offset + 1;
    var content := buffer[offset..offset + sz.content];
    FillField(pkt, CONTENT_AT, content, CONTENT_LEN, ip + port + Filled(topic, TOPIC_LEN) + kind);
    Assembled(sz, buffer[..], ip, port, topic, kind, content, pkt[..]);
  }

  lemma Assembled(sz: Sizes, w: seq<byte>, ip: seq<byte>, port: seq<byte>, topic: seq<byte>, kind: seq<byte>,
                  content: seq<byte>, pkt: seq<byte>)
    requires Fits(sz, w) && |pkt| == PACKET_LEN
    requires ip == w[..4] && port == w[4..6] && topic == w[6..6 + sz.topic] && kind == w[6 + sz.topic..7 + sz.topic]
    requires content == w[7 + sz.topic..7 + sz.topic + sz.content]
    requires pkt[..CONTENT_AT + CONTENT_LEN] ==
             ip + port + Filled(topic, TOPIC_LEN) + kind + Filled(content, CONTENT_LEN)
    requires pkt[CONTENT_AT + CONTENT_LEN..] == Zeros(3)
    ensures pkt == Rebuilt(sz, w)
  {
    assert ip + port == w[..6] && kind == [w[6 + sz.topic]];
    assert pkt == pkt[..CONTENT_AT + CONTENT_LEN] + pkt[CONTENT_AT + CONTENT_LEN..];
  }
}
