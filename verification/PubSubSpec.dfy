/** The publish/subscribe server as a state machine over its events, and what each
    client is owed, told from the events alone. */
module PubSubSpec {
  import opened Bytes

  type Id = seq<byte>
  type Topic = seq<byte>
  type Fd = nat

  /** What the server keeps and sends of a UDP message: the topic up to its NUL, and the
      bytes of the message (Subscriber.IsStruct). */
  datatype Packet = Packet(topic: Topic, rest: seq<byte>)

  datatype Event =
    | Connect(fd: Fd, id: Id)
    | Close(fd: Fd)
    | Subscribe(fd: Fd, topic: Topic, sf: bool)
    | Unsubscribe(fd: Fd, topic: Topic)
    | Publish(packet: Packet)

  // ------------------------------------------------------------------ the server

  /** A packet that left through send_packet, and the descriptor it was sent on. */
  datatype Sent = Sent(fd: Fd, packet: Packet)

  /** class Client; sent logs what left. */
  datatype ClientState = ClientState(connected: bool, fd: Fd, topics: map<Topic, bool>,
                                     queue: seq<Packet>, sent: seq<Sent>)

  function On(fd: Fd, ps: seq<Packet>): (r: seq<Sent>)
    ensures |r| == |ps| && forall k :: 0 <= k < |ps| ==> r[k] == Sent(fd, ps[k])
  {
    seq(|ps|, k requires 0 <= k < |ps| => Sent(fd, ps[k]))
  }

  function Packets(ss: seq<Sent>): (r: seq<Packet>)
    ensures |r| == |ss| && forall k :: 0 <= k < |ss| ==> r[k] == ss[k].packet
  {
    seq(|ss|, k requires 0 <= k < |ss| => ss[k].packet)
  }

  /** The maps of main: clients, fd_to_id and topic_to_clients. */
  datatype State = State(clients: map<Id, ClientState>, fdToId: map<Fd, Id>, subscribers: map<Topic, set<Id>>)

  const INITIAL := State(map[], map[], map[])

  /** fd_to_id[fd], which is the empty string for an unknown descriptor. */
  function IdOf(s: State, fd: Fd): Id {
    if fd in s.fdToId then s.fdToId[fd] else []
  }

  /** topic_to_clients[topic], which is empty for an unknown topic. */
  function SubscribersOf(s: State, t: Topic): set<Id> {
    if t in s.subscribers then s.subscribers[t] else {}
  }

  /** The two inserting lookups. */
  function TouchFd(s: State, fd: Fd): State {
    s.(fdToId := s.fdToId[fd := IdOf(s, fd)])
  }

  function TouchTopic(s: State, t: Topic): State {
    s.(subscribers := s.subscribers[t := SubscribersOf(s, t)])
  }

  /** topic_has_sf: an inserting lookup as well. */
  function TouchSf(c: ClientState, t: Topic): (r: ClientState)
    ensures t in r.topics
  {
    if t in c.topics then c else c.(topics := c.topics[t := false])
  }

  /** One subscriber's turn when a packet is published. */
  function Deliver(c: ClientState, p: Packet): ClientState {
    if c.connected then c.(sent := c.sent + [Sent(c.fd, p)])
    else
      var d := TouchSf(c, p.topic);
      if d.topics[p.topic] then d.(queue := d.queue + [p]) else d
  }

  /** Client::reconnect. */
  function Reconnect(c: ClientState, fd: Fd): ClientState {
    c.(fd := fd, connected := true, sent := c.sent + On(fd, c.queue), queue := [])
  }

  function StepConnect(s: State, fd: Fd, id: Id): State {
    if id in s.clients then
      var c := s.clients[id];
      if c.connected then s
      else s.(clients := s.clients[id := Reconnect(c, fd)], fdToId := (s.fdToId - {c.fd})[fd := id])
    else s.(clients := s.clients[id := ClientState(true, fd, map[], [], [])], fdToId := s.fdToId[fd := id])
  }

  function StepSubscribe(s: State, id: Id, t: Topic, sf: bool): State
    requires id in s.clients
  {
    var c := s.clients[id];
    if t in c.topics && c.topics[t] == sf then s
    else State(s.clients[id := c.(topics := c.topics[t := sf])], s.fdToId,
               s.subscribers[t := SubscribersOf(s, t) + {id}])
  }

  function StepUnsubscribe(s: State, id: Id, t: Topic): State
    requires id in s.clients
  {
    var c := s.clients[id];
    if t !in c.topics then s
    else State(s.clients[id := c.(topics := c.topics - {t})], s.fdToId,
               s.subscribers[t := SubscribersOf(s, t) - {id}])
  }

  function StepPublish(s: State, p: Packet): State {
    var subs := SubscribersOf(s, p.topic);
    TouchTopic(s, p.topic).(clients := map id | id in s.clients ::
      if id in subs then Deliver(s.clients[id], p) else s.clients[id])
  }

  /** One event; None when the server follows a null Client pointer. */
  function Step(s: State, e: Event): Option<State> {
    match e
    case Connect(fd, id) => Some(StepConnect(s, fd, id))
    case Publish(p) => Some(StepPublish(s, p))
    case Close(fd) =>
      var u := TouchFd(s, fd);
      var id := IdOf(s, fd);
      if id !in u.clients then None
      else Some(u.(clients := u.clients[id := u.clients[id].(connected := false)]))
    case Subscribe(fd, t, sf) =>
      if IdOf(s, fd) !in s.clients then None else Some(StepSubscribe(TouchFd(s, fd), IdOf(s, fd), t, sf))
    case Unsubscribe(fd, t) =>
      if IdOf(s, fd) !in s.clients then None else Some(StepUnsubscribe(TouchFd(s, fd), IdOf(s, fd), t))
  }

  /** What the sender of e hears back: EXIT_MSG, CONF_MSG, ERR_MSG or nothing. */
  datatype Answer = Silence | Exit | Confirm | Error

  function AnswerTo(s: State, e: Event): Answer {
    match e
    case Connect(_, id) => if id in s.clients && s.clients[id].connected then Exit else Silence
    case Subscribe(fd, t, sf) =>
      if IdOf(s, fd) !in s.clients then Silence
      else var c := s.clients[IdOf(s, fd)]; if t in c.topics && c.topics[t] == sf then Error else Confirm
    case Unsubscribe(fd, t) =>
      if IdOf(s, fd) !in s.clients then Silence
      else if t !in s.clients[IdOf(s, fd)].topics then Error else Confirm
    case _ => Silence
  }

  function Last<T>(h: seq<T>): T
    requires h != []
  {
    h[|h| - 1]
  }

  function Front<T>(h: seq<T>): seq<T>
    requires h != []
  {
    h[..|h| - 1]
  }

  /** A run of the server from its start. */
  function Run(h: seq<Event>): Option<State> {
    if h == [] then Some(INITIAL)
    else
      match Run(Front(h))
      case None => None
      case Some(s) => Step(s, Last(h))
  }

  // --------------------------------------------- the same, told from the events

  /** The connection of client id after h: a second connection is turned away. */
  function Connection(h: seq<Event>, id: Id): Option<Fd> {
    if h == [] then None
    else
      var before := Connection(Front(h), id);
      match Last(h)
      case Connect(fd, who) => if who == id && before.None? then Some(fd) else before
      case Close(fd) => if before == Some(fd) then None else before
      case _ => before
  }

  /** The descriptor id was connected on last. */
  function LastFd(h: seq<Event>, id: Id): Option<Fd> {
    if h == [] then None
    else
      match Last(h)
      case Connect(fd, who) => if who == id && Connection(Front(h), id).None? then Some(fd) else LastFd(Front(h), id)
      case _ => LastFd(Front(h), id)
  }

  /** id's subscription to t after h, with its SF value. */
  function Subscription(h: seq<Event>, id: Id, t: Topic): Option<bool> {
    if h == [] then None
    else
      var before := Subscription(Front(h), id, t);
      match Last(h)
      case Subscribe(fd, topic, sf) => if topic == t && Connection(Front(h), id) == Some(fd) then Some(sf) else before
      case Unsubscribe(fd, topic) => if topic == t && Connection(Front(h), id) == Some(fd) then None else before
      case _ => before
  }

  /** What id is owed: every packet published while it was subscribed to the packet's
      topic and either connected or subscribed with SF on. */
  function Owed(h: seq<Event>, id: Id): seq<Packet> {
    if h == [] then []
    else
      var before := Owed(Front(h), id);
      match Last(h)
      case Publish(p) =>
        var sub := Subscription(Front(h), id, p.topic);
        if sub.Some? && (Connection(Front(h), id).Some? || sub.value) then before + [p] else before
      case _ => before
  }

  /** What waits for id: the packets it is owed since it was connected last. */
  function Pending(h: seq<Event>, id: Id): seq<Packet> {
    if h == [] then []
    else
      var before := Pending(Front(h), id);
      match Last(h)
      case Publish(p) =>
        if Connection(Front(h), id).None? && Subscription(Front(h), id, p.topic) == Some(true) then before + [p]
        else before
      case Connect(_, who) => if who == id && Connection(Front(h), id).None? then [] else before
      case _ => before
  }

  /** What has gone out to id: each packet at once on its connection, or, when it was not
      connected, on the next one. */
  function Dispatched(h: seq<Event>, id: Id): seq<Sent> {
    if h == [] then []
    else
      var before := Dispatched(Front(h), id);
      match Last(h)
      case Publish(p) =>
        var on := Connection(Front(h), id);
        if on.Some? && Subscription(Front(h), id, p.topic).Some? then before + [Sent(on.value, p)] else before
      case Connect(fd, who) =>
        if who == id && Connection(Front(h), id).None? then before + On(fd, Pending(Front(h), id)) else before
      case _ => before
  }

  ghost predicate Open(h: seq<Event>, fd: Fd) {
    exists id :: Connection(h, id) == Some(fd)
  }

  predicate IsMessage(e: Event) {
    e.Close? || e.Subscribe? || e.Unsubscribe?
  }

  /** accept never returns an open descriptor, and messages arrive on open connections. */
  ghost predicate Legal(h: seq<Event>) {
    h == [] || (Legal(Front(h)) && LegalEvent(Front(h), Last(h)))
  }

  ghost predicate LegalEvent(h: seq<Event>, e: Event) {
    match e
    case Connect(fd, _) => !Open(h, fd)
    case Publish(_) => true
    case _ => Open(h, e.fd)
  }

  /** The entry of fd was erased under the client that is connected there: another client,
      which had used fd before, came back on a different descriptor. */
  ghost predicate Erased(h: seq<Event>, fd: Fd) {
    h != [] && (Erased(Front(h), fd) || Erases(Front(h), Last(h), fd))
  }

  ghost predicate Erases(h: seq<Event>, e: Event, fd: Fd) {
    e.Connect? && e.fd != fd && Connection(h, e.id).None? && LastFd(h, e.id) == Some(fd) && Open(h, fd)
  }

  /** No message arrives on a descriptor whose entry was erased. */
  ghost predicate Safe(h: seq<Event>) {
    h == [] || (Safe(Front(h)) && SafeEvent(Front(h), Last(h)))
  }

  ghost predicate SafeEvent(h: seq<Event>, e: Event) {
    IsMessage(e) ==> !Erased(h, e.fd)
  }

  // ------------------------------------------------------------------- invariant

  ghost predicate LeadsBack(s: State, id: Id)
    requires id in s.clients
  {
    IdOf(s, s.clients[id].fd) == id && s.clients[id].fd in s.fdToId
  }

  /** A connected client's descriptor leads back to it, unless its entry was erased. */
  ghost predicate MapsBack(h: seq<Event>, s: State) {
    && (forall id :: id in s.clients && s.clients[id].connected && !Erased(h, s.clients[id].fd) ==> LeadsBack(s, id))
    && (forall fd :: Erased(h, fd) ==> fd !in s.fdToId && Open(h, fd))
  }

  ghost predicate Distinct(s: State) {
    forall a, b ::
      a in s.clients && b in s.clients && s.clients[a].connected && s.clients[b].connected ==>
        s.clients[a].fd == s.clients[b].fd ==> a == b
  }

  /** The client's topics and the topics' clients agree. */
  ghost predicate Agree(s: State, id: Id) {
    forall t :: id in SubscribersOf(s, t) <==> id in s.clients && t in s.clients[id].topics
  }

  /** What the state of client id has to do with the events. */
  ghost predicate Tracks(h: seq<Event>, s: State, id: Id) {
    if id !in s.clients then
      && LastFd(h, id).None? && Connection(h, id).None? && Dispatched(h, id) == [] && Pending(h, id) == []
      && forall t :: Subscription(h, id, t).None?
    else
      var c := s.clients[id];
      && LastFd(h, id) == Some(c.fd)
      && Connection(h, id) == (if c.connected then Some(c.fd) else None)
      && (c.connected ==> c.queue == [])
      && c.sent == Dispatched(h, id) && c.queue == Pending(h, id)
      && forall t :: Subscription(h, id, t) == if t in c.topics then Some(c.topics[t]) else None
  }

  ghost predicate Inv(h: seq<Event>, s: State) {
    && MapsBack(h, s) && Distinct(s)
    && (forall id :: Agree(s, id))
    && forall id :: Tracks(h, s, id)
  }
}
