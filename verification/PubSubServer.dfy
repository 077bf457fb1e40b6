/** The server's objects, each operation proved against the state machine. */
module PubSubServer {
  import opened Bytes
  import opened PubSubSpec

  class Client {
    const id: Id
    var connected: bool
    var fd: Fd
    var topics: map<Topic, bool>
    var sfQueue: seq<Packet>
    /** What has gone out through send_packet, and on which descriptor. */
    var sent: seq<Sent>

    function View(): ClientState
      reads this
    {
      ClientState(connected, fd, topics, sfQueue, sent)
    }

    constructor (fd: Fd, id: Id)
      ensures this.id == id && View() == ClientState(true, fd, map[], [], [])
    {
      this.id := id;
      this.fd := fd;
      connected := true;
      topics := map[];
      sfQueue := [];
      sent := [];
    }

    method SendPacket(p: Packet)
      modifies `sent
      ensures sent == old(sent) + [Sent(fd, p)]
    {
      sent := sent + [Sent(fd, p)];
    }

    method StorePacket(p: Packet)
      modifies `sfQueue
      ensures sfQueue == old(sfQueue) + [p]
    {
      sfQueue := sfQueue + [p];
    }

    /** topics[topic], which inserts false for an unknown topic. */
    method TopicHasSf(topic: Topic) returns (sf: bool)
      modifies `topics
      ensures View() == TouchSf(old(View()), topic)
      ensures sf == topics[topic]
    {
      if topic !in topics {
        topics := topics[topic := false];
      }
      sf := topics[topic];
    }

    method Disconnect()
      modifies `connected
      ensures !connected
    {
      connected := false;
    }

    method Reconnect(fd: Fd)
      modifies this
      ensures View() == PubSubSpec.Reconnect(old(View()), fd)
    {
      this.fd := fd;
      connected := true;
      while sfQueue != []
        invariant sent + On(fd, sfQueue) == old(sent) + On(fd, old(sfQueue))
        invariant connected && this.fd == fd && topics == old(topics)
        decreases |sfQueue|
      {
        var p := sfQueue[0];
        SendNext(sent, fd, sfQueue);
        sfQueue := sfQueue[1..];
        SendPacket(p);
      }
      assert sent + On(fd, []) == sent;
    }

    method Subscribe(topic: Topic, sf: bool)
      modifies `topics
      ensures topics == old(topics)[topic := sf]
    {
      topics := topics[topic := sf];
    }

    method Unsubscribe(topic: Topic)
      modifies `topics
      ensures topics == old(topics) - {topic}
    {
      topics := topics - {topic};
    }

    /** The loop body of a publication. */
    method Receive(p: Packet)
      modifies this
      ensures View() == Deliver(old(View()), p)
    {
      if connected {
        SendPacket(p);
      } else {
        var sf := TopicHasSf(p.topic);
        if sf {
          StorePacket(p);
        }
      }
    }
  }

  class Server {
    var clients: map<Id, Client>
    var fdToId: map<Fd, Id>
    var topicToClients: map<Topic, set<Client>>

    ghost predicate Valid()
      reads this
    {
      && (forall id :: id in clients ==> clients[id].id == id)
      && forall t, c :: t in topicToClients && c in topicToClients[t] ==> c.id in clients && clients[c.id] == c
    }

    ghost function View(): State
      reads this, clients.Values
    {
      State(Views(clients), fdToId, Names(topicToClients))
    }

    constructor ()
      ensures Valid() && View() == INITIAL && clients == map[]
    {
      clients := map[];
      fdToId := map[];
      topicToClients := map[];
    }

    /** fd_to_id[fd]. */
    method IdAt(fd: Fd) returns (id: Id)
      requires Valid()
      modifies `fdToId
      ensures Valid() && View() == TouchFd(old(View()), fd)
      ensures id == IdOf(old(View()), fd)
    {
      if fd !in fdToId {
        fdToId := fdToId[fd := []];
      }
      id := fdToId[fd];
    }

    method SubscribersAt(t: Topic) returns (who: set<Client>)
      requires Valid()
      modifies `topicToClients
      ensures Valid() && View() == TouchTopic(old(View()), t)
      ensures t in topicToClients && who == topicToClients[t]
      ensures Ids(who) == SubscribersOf(old(View()), t)
    {
      if t in topicToClients {
        assert Names(topicToClients)[t := Ids(topicToClients[t])] == Names(topicToClients);
      } else {
        NamesUpdate(topicToClients, t, {});
        assert Ids({}) == {};
        topicToClients := topicToClients[t := {}];
      }
      who := topicToClients[t];
    }

    /** topic_to_clients[t].insert(c). */
    method InsertSubscriber(t: Topic, c: Client)
      requires Valid() && Owns(c)
      modifies `topicToClients
      ensures Valid()
      ensures var s := old(View());
        View() == s.(subscribers := s.subscribers[t := SubscribersOf(s, t) + {c.id}])
    {
      var who := SubscribersAt(t);
      IdsInsert(who, c);
      NamesUpdate(topicToClients, t, who + {c});
      topicToClients := topicToClients[t := who + {c}];
    }

    /** topic_to_clients[t].erase(c). */
    method EraseSubscriber(t: Topic, c: Client)
      requires Valid() && Owns(c)
      modifies `topicToClients
      ensures Valid()
      ensures var s := old(View());
        View() == s.(subscribers := s.subscribers[t := SubscribersOf(s, t) - {c.id}])
    {
      var who := SubscribersAt(t);
      IdsErase(who, c);
      NamesUpdate(topicToClients, t, who - {c});
      topicToClients := topicToClients[t := who - {c}];
    }

    /** A client that is found through clients. */
    ghost predicate Owns(c: Client)
      reads this
    {
      c.id in clients && clients[c.id] == c
    }

    /** The SUB_MSG branch, once the client is known. */
    method SubscribeClient(c: Client, topic: Topic, sf: bool) returns (answer: Answer)
      requires Valid() && Owns(c)
      modifies this`topicToClients, c
      ensures Valid() && View() == StepSubscribe(old(View()), c.id, topic, sf)
      ensures answer == if topic in old(c.topics) && old(c.topics[topic]) == sf then Error else Confirm
    {
      answer := Confirm;
      if topic in c.topics {
        var known := c.TopicHasSf(topic);
        if known == sf {
          answer := Error;
          return;
        }
      }
      ghost var before := Views(clients);
      c.Subscribe(topic, sf);
      OneChanged(clients, before, c.id);
      InsertSubscriber(topic, c);
    }

    /** The UNSUB_MSG branch, once the client is known. */
    method UnsubscribeClient(c: Client, topic: Topic) returns (answer: Answer)
      requires Valid() && Owns(c)
      modifies this`topicToClients, c
      ensures Valid() && View() == StepUnsubscribe(old(View()), c.id, topic)
      ensures answer == if topic in old(c.topics) then Confirm else Error
    {
      if topic !in c.topics {
        return Error;
      }
      answer := Confirm;
      ghost var before := Views(clients);
      c.Unsubscribe(topic);
      OneChanged(clients, before, c.id);
      EraseSubscriber(topic, c);
    }

    method ReconnectClient(c: Client, fd: Fd)
      requires Valid() && Owns(c) && !c.connected
      modifies this`fdToId, c
      ensures Valid() && View() == StepConnect(old(View()), fd, c.id)
    {
      var oldFd := c.fd;
      ghost var before := Views(clients);
      c.Reconnect(fd);
      OneChanged(clients, before, c.id);
      assert Views(clients) == before[c.id := PubSubSpec.Reconnect(before[c.id], fd)];
      fdToId := fdToId - {oldFd};
      fdToId := fdToId[fd := c.id];
    }

    method AddClient(fd: Fd, id: Id)
      requires Valid() && id !in clients
      modifies this`clients, this`fdToId
      ensures Valid() && View() == StepConnect(old(View()), fd, id)
      ensures fresh(clients.Values - old(clients.Values))
    {
      var c := new Client(fd, id);
      ViewsUpdate(clients, id, c);
      clients := clients[id := c];
      fdToId := fdToId[fd := id];
    }

    method OnConnect(fd: Fd, id: Id) returns (answer: Answer)
      requires Valid()
      modifies this, clients.Values
      ensures Valid() && Step(old(View()), Connect(fd, id)) == Some(View())
      ensures answer == AnswerTo(old(View()), Connect(fd, id))
      ensures fresh(clients.Values - old(clients.Values))
    {
      answer := Silence;
      if id in clients {
        var c := clients[id];
        if c.connected {
          answer := Exit;
        } else {
          ReconnectClient(c, fd);
        }
      } else {
        AddClient(fd, id);
      }
    }

    method OnClose(fd: Fd) returns (alive: bool)
      requires Valid()
      modifies this, clients.Values
      ensures Valid() && clients == old(clients)
      ensures Step(old(View()), Close(fd)) == if alive then Some(View()) else None
    {
      var id := IdAt(fd);
      alive := id in clients;
      if alive {
        ghost var before := Views(clients);
        clients[id].Disconnect();
        OneChanged(clients, before, id);
      }
    }

    method OnSubscribe(fd: Fd, topic: Topic, sf: bool) returns (alive: bool, answer: Answer)
      requires Valid()
      modifies this, clients.Values
      ensures Valid() && clients == old(clients)
      ensures Step(old(View()), Event.Subscribe(fd, topic, sf)) == if alive then Some(View()) else None
      ensures answer == AnswerTo(old(View()), Event.Subscribe(fd, topic, sf))
    {
      var id := IdAt(fd);
      answer := Silence;
      alive := id in clients;
      if alive {
        answer := SubscribeClient(clients[id], topic, sf);
      }
    }

    method OnUnsubscribe(fd: Fd, topic: Topic) returns (alive: bool, answer: Answer)
      requires Valid()
      modifies this, clients.Values
      ensures Valid() && clients == old(clients)
      ensures Step(old(View()), Event.Unsubscribe(fd, topic)) == if alive then Some(View()) else None
      ensures answer == AnswerTo(old(View()), Event.Unsubscribe(fd, topic))
    {
      var id := IdAt(fd);
      answer := Silence;
      alive := id in clients;
      if alive {
        answer := UnsubscribeClient(clients[id], topic);
      }
    }

    /** The loop over the subscribers of a topic, in whatever order the set has them. */
    method DeliverAll(who: set<Client>, p: Packet)
      modifies who
      ensures forall c <- who :: c.View() == Deliver(old(c.View()), p)
    {
      var todo := who;
      while todo != {}
        invariant todo <= who
        invariant forall c <- who :: c.View() == if c in todo then old(c.View()) else Deliver(old(c.View()), p)
        decreases |todo|
      {
        var c :| c in todo;
        c.Receive(p);
        todo := todo - {c};
      }
    }

    method OnPublish(p: Packet)
      requires Valid()
      modifies this, clients.Values
      ensures Valid() && clients == old(clients)
      ensures Step(old(View()), Publish(p)) == Some(View())
    {
      var who := SubscribersAt(p.topic);
      InIds(clients, who);
      ghost var before := Views(clients);
      DeliverAll(who, p);
      AllChanged(clients, before, who, p);
    }
  }

  /** One event: false when the server followed a null pointer. */
  method Handle(server: Server, e: Event) returns (alive: bool)
    requires server.Valid()
    modifies server, server.clients.Values
    ensures server.Valid() && fresh(server.clients.Values - old(server.clients.Values))
    ensures Step(old(server.View()), e) == if alive then Some(server.View()) else None
  {
    alive := true;
    match e {
      case Connect(fd, id) => var answer := server.OnConnect(fd, id);
      case Close(fd) => alive := server.OnClose(fd);
      case Subscribe(fd, t, sf) => var answer; alive, answer := server.OnSubscribe(fd, t, sf);
      case Unsubscribe(fd, t) => var answer; alive, answer := server.OnUnsubscribe(fd, t);
      case Publish(p) => server.OnPublish(p);
    }
  }

  /** The event loop: the objects end in the state the run has. */
  method Serve(h: seq<Event>) returns (server: Server, alive: bool)
    ensures fresh(server) && server.Valid()
    ensures Run(h) == if alive then Some(server.View()) else None
  {
    server := new Server();
    alive := true;
    var i := 0;
    while i < |h| && alive
      invariant 0 <= i <= |h|
      invariant fresh(server) && fresh(server.clients.Values) && server.Valid()
      invariant Run(h[..i]) == if alive then Some(server.View()) else None
      decreases |h| - i
    {
      RunStep(h, i);
      alive := Handle(server, h[i]);
      i := i + 1;
    }
    if alive {
      assert h[..i] == h;
    } else {
      NoReturn(h, i);
    }
  }

  lemma RunStep(h: seq<Event>, i: nat)
    requires i < |h| && Run(h[..i]).Some?
    ensures Run(h[..i + 1]) == Step(Run(h[..i]).value, h[i])
  {
    assert Front(h[..i + 1]) == h[..i];
  }

  lemma {:induction false} NoReturn(h: seq<Event>, i: nat)
    requires i <= |h| && Run(h[..i]) == None
    ensures Run(h) == None
  {
    if i == |h| {
      assert h[..i] == h;
    } else {
      assert Front(h)[..i] == h[..i];
      NoReturn(Front(h), i);
    }
  }

  lemma SendNext(sent: seq<Sent>, fd: Fd, q: seq<Packet>)
    requires q != []
    ensures sent + [Sent(fd, q[0])] + On(fd, q[1..]) == sent + On(fd, q)
  {
  }

  ghost function Ids(who: set<Client>): set<Id> {
    set c | c in who :: c.id
  }

  ghost function Names(m: map<Topic, set<Client>>): map<Topic, set<Id>> {
    map t | t in m :: Ids(m[t])
  }

  lemma OneChanged(m: map<Id, Client>, before: map<Id, ClientState>, id: Id)
    requires id in m && m.Keys == before.Keys
    requires forall j :: j in m && j != id ==> m[j].View() == before[j]
    ensures Views(m) == before[id := m[id].View()]
  {
  }

  lemma AllChanged(m: map<Id, Client>, before: map<Id, ClientState>, who: set<Client>, p: Packet)
    requires m.Keys == before.Keys
    requires forall j :: j in m ==> (m[j] in who <==> j in Ids(who))
    requires forall j :: j in m ==> m[j].View() == if m[j] in who then Deliver(before[j], p) else before[j]
    ensures Views(m) == map id | id in before :: if id in Ids(who) then Deliver(before[id], p) else before[id]
  {
  }

  lemma InIds(m: map<Id, Client>, who: set<Client>)
    requires forall j :: j in m ==> m[j].id == j
    requires forall c <- who :: c.id in m && m[c.id] == c
    ensures forall j :: j in m ==> (m[j] in who <==> j in Ids(who))
  {
  }

  lemma NamesUpdate(m: map<Topic, set<Client>>, t: Topic, who: set<Client>)
    ensures Names(m[t := who]) == Names(m)[t := Ids(who)]
  {
  }

  lemma IdsInsert(who: set<Client>, c: Client)
    ensures Ids(who + {c}) == Ids(who) + {c.id}
  {
  }

  lemma IdsErase(who: set<Client>, c: Client)
    requires forall d <- who :: d.id == c.id ==> d == c
    ensures Ids(who - {c}) == Ids(who) - {c.id}
  {
  }

  lemma ViewsUpdate(m: map<Id, Client>, id: Id, c: Client)
    requires id !in m
    ensures Views(m[id := c]) == Views(m)[id := c.View()]
  {
  }

  ghost function Views(m: map<Id, Client>): map<Id, ClientState>
    reads m.Values
  {
    map id | id in m :: m[id].View()
  }
}
