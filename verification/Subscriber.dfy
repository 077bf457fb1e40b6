/** The bytes a client reads, and the packets it makes of them: what the broker owes it,
    in order. */
module Subscriber {
  import opened Bytes
  import PubSubSpec
  import PubSubProofs
  import Wire

  const PKT_MSG: byte := 2
  const WORD_LEN := 8
  const MSG_LEN := 52

  // --------------------------------------------------------------- one announcement

  /** The k low bytes of a size_t, lowest first. */
  function Little(n: nat, k: nat): (t: seq<byte>)
    ensures |t| == k
  {
    if k == 0 then [] else [n % 0x100] + Little(n / 0x100, k - 1)
  }

  function LoadLittle(t: seq<byte>): nat {
    if t == [] then 0 else t[0] + 0x100 * LoadLittle(t[1..])
  }

  function Pow256(k: nat): nat {
    if k == 0 then 1 else 0x100 * Pow256(k - 1)
  }

  lemma {:induction false} LittleLoads(n: nat, k: nat)
    requires n < Pow256(k)
    ensures LoadLittle(Little(n, k)) == n
  {
    if k > 0 {
      LittleLoads(n / 0x100, k - 1);
      assert Little(n, k)[1..] == Little(n / 0x100, k - 1);
    }
  }

  /** struct proto_msg with the sizes in its payload. */
  function Announcement(sz: Wire.Sizes): (t: seq<byte>)
    ensures |t| == MSG_LEN
  {
    [PKT_MSG] + Little(sz.toReceive, WORD_LEN) + Little(sz.topic, WORD_LEN) + Little(sz.content, WORD_LEN)
    + Wire.Zeros(MSG_LEN - 1 - 3 * WORD_LEN)
  }

  /** The memcpy out of that payload. */
  function LoadSizes(t: seq<byte>): Wire.Sizes
    requires |t| >= MSG_LEN
  {
    Wire.Sizes(LoadLittle(t[1..9]), LoadLittle(t[9..17]), LoadLittle(t[17..25]))
  }

  lemma WordSlices(a: seq<byte>, b: seq<byte>, c: seq<byte>, t: seq<byte>)
    requires |a| == |b| == |c| == WORD_LEN
    ensures var s := [PKT_MSG] + a + b + c + t; s[1..9] == a && s[9..17] == b && s[17..25] == c
  {
    var s := [PKT_MSG] + a + b + c + t;
    assert s[..17] == [PKT_MSG] + a + b;
    assert s[..25] == [PKT_MSG] + a + b + c;
  }

  lemma WordLoads(n: nat)
    requires n < 0x1_0000
    ensures LoadLittle(Little(n, WORD_LEN)) == n
  {
    assert Pow256(4) == 0x1_0000_0000;
    assert Pow256(WORD_LEN) == 0x1_0000_0000_0000_0000;
    LittleLoads(n, WORD_LEN);
  }

  lemma SizesLoad(sz: Wire.Sizes, more: seq<byte>)
    requires sz.toReceive < 0x1_0000 && sz.topic < 0x1_0000 && sz.content < 0x1_0000
    ensures LoadSizes(Announcement(sz) + more) == sz
  {
    WordLoads(sz.toReceive);
    WordLoads(sz.topic);
    WordLoads(sz.content);
    var pad := Wire.Zeros(MSG_LEN - 1 - 3 * WORD_LEN);
    var a, b, c := Little(sz.toReceive, WORD_LEN), Little(sz.topic, WORD_LEN), Little(sz.content, WORD_LEN);
    WordSlices(a, b, c, pad + more);
    assert Announcement(sz) + more == [PKT_MSG] + a + b + c + (pad + more);
  }

  // -------------------------------------------------------------------- the stream

  /** A message of a type the broker knows. */
  type Struct = p: Wire.Packet | Wire.DataType(p) <= 3 witness seq(Wire.PACKET_LEN, _ => 0)

  /** Both sends of send_packet. */
  function Frame(p: Struct): (t: seq<byte>)
    ensures |t| >= MSG_LEN
  {
    Announcement(Wire.SizesOf(p)) + Wire.Packed(p)
  }

  function Stream(ps: seq<Struct>): seq<byte> {
    if ps == [] then [] else Frame(ps[0]) + Stream(ps[1..])
  }

  /** What a subscriber with nothing else to read makes of a stream: as long as another
      message has come in whole, it takes the sizes, then as many bytes as they say, and
      rebuilds. */
  function Received(t: seq<byte>): seq<Wire.Packet>
    decreases |t|
  {
    if |t| < MSG_LEN || t[0] != PKT_MSG then []
    else
      var sz := LoadSizes(t);
      var end := MSG_LEN + sz.toReceive;
      if |t| < end || !Wire.Fits(sz, t[MSG_LEN..end]) then []
      else [Wire.Rebuilt(sz, t[MSG_LEN..end])] + Received(t[end..])
  }

  lemma ReceivedOne(t: seq<byte>, w: seq<byte>, more: seq<byte>)
    requires |t| >= MSG_LEN && t[0] == PKT_MSG && MSG_LEN + LoadSizes(t).toReceive <= |t|
    requires w == t[MSG_LEN..MSG_LEN + LoadSizes(t).toReceive] && more == t[MSG_LEN + LoadSizes(t).toReceive..]
    ensures Received(t) ==
            if Wire.Fits(LoadSizes(t), w) then [Wire.Rebuilt(LoadSizes(t), w)] + Received(more) else []
  {
  }

  lemma Regrouped<T>(a: seq<T>, x: T, b: seq<T>)
    ensures a + ([x] + b) == a + [x] + b
  {
  }

  /** That loop; each message is received into a buffer of its own. */
  method ReceivePackets(t: seq<byte>) returns (pkts: seq<Wire.Packet>)
    ensures pkts == Received(t)
  {
    pkts := [];
    var rest := t;
    while |rest| >= MSG_LEN && rest[0] == PKT_MSG && MSG_LEN + LoadSizes(rest).toReceive <= |rest|
      invariant Received(t) == pkts + Received(rest)
      decreases |rest|
    {
      var sz := LoadSizes(rest);
      var w, more := rest[MSG_LEN..MSG_LEN + sz.toReceive], rest[MSG_LEN + sz.toReceive..];
      ReceivedOne(rest, w, more);
      if !Wire.Fits(sz, w) { return; }
      var pkt := ReceivePacket(sz, w);
      Regrouped(pkts, pkt, Received(more));
      pkts := pkts + [pkt];
      rest := more;
    }
  }

  method ReceivePacket(sz: Wire.Sizes, w: seq<byte>) returns (p: Wire.Packet)
    requires Wire.Fits(sz, w)
    ensures p == Wire.Rebuilt(sz, w)
  {
    var buffer := new byte[|w|](i requires 0 <= i < |w| => w[i]);
    assert buffer[..] == w;
    var pkt := Wire.RebuildPacket(sz, buffer);
    p := pkt[..];
  }

  /** What rebuild_packet makes of a packet that was sent. */
  function Arrived(p: Struct): Wire.Packet {
    Wire.RebuildsPacked(p);
    Wire.Rebuilt(Wire.SizesOf(p), Wire.Packed(p))
  }

  function AllArrived(ps: seq<Struct>): seq<Wire.Packet> {
    if ps == [] then [] else [Arrived(ps[0])] + AllArrived(ps[1..])
  }

  lemma FrameReceived(p: Struct, more: seq<byte>)
    ensures Received(Frame(p) + more) == [Arrived(p)] + Received(more)
  {
    var sz, w, t := Wire.SizesOf(p), Wire.Packed(p), Frame(p) + more;
    Wire.RebuildsPacked(p);
    assert t == Announcement(sz) + (w + more);
    SizesLoad(sz, w + more);
    assert t[MSG_LEN..MSG_LEN + sz.toReceive] == w;
    assert t[MSG_LEN + sz.toReceive..] == more;
  }

  /** Every packet of a stream is rebuilt, in order. */
  lemma {:induction false} StreamReceived(ps: seq<Struct>)
    ensures Received(Stream(ps)) == AllArrived(ps)
  {
    if ps != [] {
      FrameReceived(ps[0], Stream(ps[1..]));
      StreamReceived(ps[1..]);
    }
  }

  // --------------------------------------------------------- what the broker sends

  /** The topic of a message, up to its NUL. */
  function TopicOf(p: Wire.Packet): seq<byte> {
    Wire.CText(Wire.Topic(p))
  }

  /** A packet of the broker that is such a message. */
  predicate IsStruct(p: PubSubSpec.Packet) {
    |p.rest| == Wire.PACKET_LEN && Wire.DataType(p.rest) <= 3 && p.topic == TopicOf(p.rest)
  }

  ghost predicate AreStructs(ps: seq<PubSubSpec.Packet>) {
    forall p <- ps :: IsStruct(p)
  }

  function StructOf(p: PubSubSpec.Packet): Struct
    requires IsStruct(p)
  {
    p.rest
  }

  ghost function Structs(ps: seq<PubSubSpec.Packet>): (r: seq<Struct>)
    requires AreStructs(ps)
    ensures |r| == |ps| && forall k :: 0 <= k < |ps| ==> r[k] == ps[k].rest
  {
    seq(|ps|, k requires 0 <= k < |ps| => StructOf(ps[k]))
  }

  /** Only such messages are published. */
  ghost predicate PublishesStructs(h: seq<PubSubSpec.Event>) {
    forall e <- h :: e.Publish? ==> IsStruct(e.packet)
  }

  lemma {:induction false} OwedIsStructs(h: seq<PubSubSpec.Event>, id: PubSubSpec.Id)
    requires PublishesStructs(h)
    ensures AreStructs(PubSubSpec.Owed(h, id))
  {
    if h != [] {
      assert PubSubSpec.Last(h) in h;
      OwedIsStructs(PubSubSpec.Front(h), id);
    }
  }

  lemma {:induction false} ArrivedAt(ps: seq<Struct>, k: nat)
    requires k < |ps|
    ensures |AllArrived(ps)| == |ps| && AllArrived(ps)[k] == Arrived(ps[k])
  {
    if |ps| > 1 { ArrivedAt(ps[1..], if k == 0 then 0 else k - 1); }
  }

  /** A rebuilt packet has the topic, the address, the port and the type of the one that
      was published, and the subscriber prints its content. */
  lemma ArrivedFields(p: Struct)
    ensures TopicOf(Arrived(p)) == TopicOf(p)
    ensures Wire.Ip(Arrived(p)) == Wire.Ip(p) && Wire.Port(Arrived(p)) == Wire.Port(p)
    ensures Wire.DataType(Arrived(p)) == Wire.DataType(p) && Wire.PrintedOf(Arrived(p)) == Wire.PrintedOf(p)
  {
    Wire.RebuildsPacked(p);
    Wire.PrintedSurvives(p);
  }

  lemma OwedReceived(h: seq<PubSubSpec.Event>, id: PubSubSpec.Id, sent: seq<PubSubSpec.Packet>)
    requires PublishesStructs(h) && sent == PubSubSpec.Owed(h, id)
    ensures AreStructs(sent) && AreStructs(PubSubSpec.Owed(h, id))
    ensures Received(Stream(Structs(sent))) == AllArrived(Structs(PubSubSpec.Owed(h, id)))
  {
    OwedIsStructs(h, id);
    StreamReceived(Structs(sent));
  }

  lemma SentIsOwed(h: seq<PubSubSpec.Event>, id: PubSubSpec.Id)
    requires PubSubSpec.Legal(h) && PubSubSpec.Safe(h)
    ensures PubSubSpec.Run(h).Some?
    ensures var cs := PubSubSpec.Run(h).value.clients;
      id in cs && cs[id].connected ==> PubSubSpec.Packets(cs[id].sent) == PubSubSpec.Owed(h, id)
  {
    PubSubProofs.Delivery(h, id);
  }

  /** A connected client that reads what was sent to it, one connection after the other,
      rebuilds the packets it is owed, in order and once each, and nothing else. */
  lemma OwedArrives(h: seq<PubSubSpec.Event>, id: PubSubSpec.Id)
    requires PubSubSpec.Legal(h) && PubSubSpec.Safe(h) && PublishesStructs(h)
    ensures PubSubSpec.Run(h).Some?
    ensures var cs := PubSubSpec.Run(h).value.clients;
      id in cs && cs[id].connected ==>
        && var sent := PubSubSpec.Packets(cs[id].sent);
        && AreStructs(sent) && AreStructs(PubSubSpec.Owed(h, id))
        && Received(Stream(Structs(sent))) == AllArrived(Structs(PubSubSpec.Owed(h, id)))
  {
    SentIsOwed(h, id);
    var cs := PubSubSpec.Run(h).value.clients;
    if id in cs && cs[id].connected { OwedReceived(h, id, PubSubSpec.Packets(cs[id].sent)); }
  }
}
