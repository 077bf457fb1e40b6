/** Every safe run keeps the invariant, and what follows for delivery. */
module PubSubProofs {
  import opened Bytes
  import opened PubSubSpec

  // ------------------------------------------------------ one step, one client

  lemma ConnectTracks(h: seq<Event>, s: State, who: Id)
    requires h != [] && Last(h).Connect? && Inv(Front(h), s)
    ensures Tracks(h, StepConnect(s, Last(h).fd, Last(h).id), who)
  {
    assert Tracks(Front(h), s, who) && Tracks(Front(h), s, Last(h).id);
    if who !in s.clients { assert On(Last(h).fd, []) == []; }
  }

  lemma CloseTracks(h: seq<Event>, s: State, who: Id)
    requires h != [] && Last(h).Close? && Inv(Front(h), s)
    requires LegalEvent(Front(h), Last(h)) && SafeEvent(Front(h), Last(h))
    ensures Step(s, Last(h)).Some? && Tracks(h, Step(s, Last(h)).value, who)
  {
    var id := OpenMapsBack(Front(h), s, Last(h).fd);
    assert Tracks(Front(h), s, who);
  }

  lemma SubscribeTracks(h: seq<Event>, s: State, who: Id)
    requires h != [] && Last(h).Subscribe? && Inv(Front(h), s)
    requires LegalEvent(Front(h), Last(h)) && SafeEvent(Front(h), Last(h))
    ensures Step(s, Last(h)).Some? && Tracks(h, Step(s, Last(h)).value, who)
  {
    var id := OpenMapsBack(Front(h), s, Last(h).fd);
    assert Tracks(Front(h), s, who);
  }

  lemma UnsubscribeTracks(h: seq<Event>, s: State, who: Id)
    requires h != [] && Last(h).Unsubscribe? && Inv(Front(h), s)
    requires LegalEvent(Front(h), Last(h)) && SafeEvent(Front(h), Last(h))
    ensures Step(s, Last(h)).Some? && Tracks(h, Step(s, Last(h)).value, who)
  {
    var id := OpenMapsBack(Front(h), s, Last(h).fd);
    assert Tracks(Front(h), s, who);
  }

  lemma PublishTracks(h: seq<Event>, s: State, who: Id)
    requires h != [] && Last(h).Publish? && Inv(Front(h), s)
    ensures Tracks(h, StepPublish(s, Last(h).packet), who)
  {
    assert Tracks(Front(h), s, who) && Agree(s, who);
  }

  /** An open descriptor whose entry was not erased leads to the one client that is
      connected on it. */
  lemma OpenMapsBack(h: seq<Event>, s: State, fd: Fd) returns (id: Id)
    requires Inv(h, s) && Open(h, fd) && !Erased(h, fd)
    ensures fd in s.fdToId && IdOf(s, fd) == id && id in s.clients
    ensures s.clients[id].connected && s.clients[id].fd == fd
    ensures TouchFd(s, fd) == s
    ensures forall who :: Connection(h, who) == Some(fd) <==> who == id
  {
    id :| Connection(h, id) == Some(fd);
    assert Tracks(h, s, id);
    assert LeadsBack(s, id);
    assert s.fdToId[fd := id] == s.fdToId;
    forall who ensures Connection(h, who) == Some(fd) <==> who == id {
      assert Tracks(h, s, who);
    }
  }

  // --------------------------------------------------------- one step, the maps

  /** Connections other than the one an event is about stay open. */
  lemma StaysOpen(h: seq<Event>, fd: Fd)
    requires h != [] && Open(Front(h), fd) && !(Last(h).Close? && Last(h).fd == fd)
    ensures Open(h, fd)
  {
    var id :| Connection(Front(h), id) == Some(fd);
    assert Connection(h, id) == Some(fd);
  }

  lemma ConnectErasure(h: seq<Event>, s: State, gone: Fd)
    requires h != [] && Last(h).Connect? && Inv(Front(h), s) && LegalEvent(Front(h), Last(h))
    requires Erased(h, gone)
    ensures gone !in StepConnect(s, Last(h).fd, Last(h).id).fdToId && Open(h, gone)
  {
    assert Tracks(Front(h), s, Last(h).id);
    assert Open(Front(h), gone);
    StaysOpen(h, gone);
  }

  lemma ConnectLeadsBack(h: seq<Event>, s: State, who: Id)
    requires h != [] && Last(h).Connect? && Inv(Front(h), s) && LegalEvent(Front(h), Last(h))
    requires var r := StepConnect(s, Last(h).fd, Last(h).id);
      who in r.clients && r.clients[who].connected && !Erased(h, r.clients[who].fd)
    ensures LeadsBack(StepConnect(s, Last(h).fd, Last(h).id), who)
  {
    var f := Front(h);
    var e := Last(h);
    assert Tracks(f, s, e.id) && Tracks(f, s, who);
    if who != e.id {
      assert LeadsBack(s, who);
      assert Connection(f, who) == Some(s.clients[who].fd);
      assert Open(f, s.clients[who].fd) && !Erases(f, e, s.clients[who].fd);
    }
  }

  lemma ConnectMapsBack(h: seq<Event>, s: State)
    requires h != [] && Last(h).Connect? && Inv(Front(h), s) && LegalEvent(Front(h), Last(h))
    ensures MapsBack(h, StepConnect(s, Last(h).fd, Last(h).id))
  {
    var r := StepConnect(s, Last(h).fd, Last(h).id);
    forall gone | Erased(h, gone) ensures gone !in r.fdToId && Open(h, gone) { ConnectErasure(h, s, gone); }
    forall who | who in r.clients && r.clients[who].connected && !Erased(h, r.clients[who].fd)
      ensures LeadsBack(r, who)
    {
      ConnectLeadsBack(h, s, who);
    }
  }

  lemma ConnectDistinct(h: seq<Event>, s: State, e: Event)
    requires e.Connect? && Inv(h, s) && LegalEvent(h, e)
    ensures Distinct(StepConnect(s, e.fd, e.id))
  {
    var r := StepConnect(s, e.fd, e.id);
    forall a, b | a in r.clients && b in r.clients && r.clients[a].connected && r.clients[b].connected
                  && r.clients[a].fd == r.clients[b].fd
      ensures a == b
    {
      assert Tracks(h, s, a) && Tracks(h, s, b);
    }
  }

  lemma OtherErasure(h: seq<Event>, fd: Fd)
    requires h != [] && !Last(h).Connect?
    ensures Erased(h, fd) <==> Erased(Front(h), fd)
  {
  }

  lemma OthersMapBack(h: seq<Event>, s: State)
    requires h != [] && !Last(h).Connect? && Inv(Front(h), s)
    requires LegalEvent(Front(h), Last(h)) && SafeEvent(Front(h), Last(h)) && Step(s, Last(h)).Some?
    ensures MapsBack(h, Step(s, Last(h)).value) && Distinct(Step(s, Last(h)).value)
  {
    var r := Step(s, Last(h)).value;
    if !Last(h).Publish? {
      var id := OpenMapsBack(Front(h), s, Last(h).fd);
    }
    forall fd | Erased(h, fd) ensures fd !in r.fdToId && Open(h, fd) {
      OtherErasure(h, fd);
      StaysOpen(h, fd);
    }
    forall who | who in r.clients && r.clients[who].connected && !Erased(h, r.clients[who].fd)
      ensures LeadsBack(r, who)
    {
      OtherErasure(h, r.clients[who].fd);
      assert LeadsBack(s, who);
    }
  }

  lemma StepAgrees(h: seq<Event>, s: State, e: Event, who: Id)
    requires Inv(h, s) && LegalEvent(h, e) && SafeEvent(h, e) && Step(s, e).Some?
    ensures Agree(Step(s, e).value, who)
  {
    assert Agree(s, who);
    if e.Publish? || e.Connect? {
      forall t ensures SubscribersOf(Step(s, e).value, t) == SubscribersOf(s, t) {}
    } else {
      var id := OpenMapsBack(h, s, e.fd);
      var r := Step(s, e).value;
      forall t ensures who in SubscribersOf(r, t) <==> who in r.clients && t in r.clients[who].topics {
        assert who in SubscribersOf(s, t) <==> who in s.clients && t in s.clients[who].topics;
      }
    }
  }

  // ------------------------------------------------------------------ whole runs

  lemma StepSucceeds(h: seq<Event>, s: State, e: Event)
    requires Inv(h, s) && LegalEvent(h, e) && SafeEvent(h, e)
    ensures Step(s, e).Some?
  {
    if IsMessage(e) {
      var id := OpenMapsBack(h, s, e.fd);
    }
  }

  lemma StepTracks(h: seq<Event>, s: State, who: Id)
    requires h != [] && Inv(Front(h), s) && LegalEvent(Front(h), Last(h)) && SafeEvent(Front(h), Last(h))
    ensures Step(s, Last(h)).Some? && Tracks(h, Step(s, Last(h)).value, who)
  {
    match Last(h)
    case Connect(_, _) => ConnectTracks(h, s, who);
    case Close(_) => CloseTracks(h, s, who);
    case Subscribe(_, _, _) => SubscribeTracks(h, s, who);
    case Unsubscribe(_, _) => UnsubscribeTracks(h, s, who);
    case Publish(_) => PublishTracks(h, s, who);
  }

  lemma StepKeepsInv(h: seq<Event>, s: State)
    requires h != [] && Inv(Front(h), s) && LegalEvent(Front(h), Last(h)) && SafeEvent(Front(h), Last(h))
    ensures Step(s, Last(h)).Some? && Inv(h, Step(s, Last(h)).value)
  {
    StepSucceeds(Front(h), s, Last(h));
    var r := Step(s, Last(h)).value;
    forall who ensures Tracks(h, r, who) { StepTracks(h, s, who); }
    forall who ensures Agree(r, who) { StepAgrees(Front(h), s, Last(h), who); }
    if Last(h).Connect? {
      ConnectMapsBack(h, s);
      ConnectDistinct(Front(h), s, Last(h));
    } else {
      OthersMapBack(h, s);
    }
  }

  /** The server never follows a null pointer on a safe run, and its maps tell what the
      events tell. */
  lemma {:induction false} SafeRunsKeepInv(h: seq<Event>)
    requires Legal(h) && Safe(h)
    ensures Run(h).Some? && Inv(h, Run(h).value)
  {
    if h != [] {
      SafeRunsKeepInv(Front(h));
      StepKeepsInv(h, Run(Front(h)).value);
    }
  }

  /** What went out and what waits are together what is owed. */
  lemma {:induction false} DispatchedThenPending(h: seq<Event>, id: Id)
    ensures Packets(Dispatched(h, id)) + Pending(h, id) == Owed(h, id)
    ensures Connection(h, id).Some? ==> Pending(h, id) == []
  {
    if h != [] {
      DispatchedThenPending(Front(h), id);
      var sent, waiting := Dispatched(Front(h), id), Pending(Front(h), id);
      match Last(h)
      case Publish(p) =>
        if Connection(Front(h), id).Some? {
          SendOne(sent, Sent(Connection(Front(h), id).value, p));
        } else {
          assert Packets(sent) + (waiting + [p]) == Packets(sent) + waiting + [p];
        }
      case Connect(fd, _) => SendAll(sent, fd, waiting);
      case _ =>
    }
  }

  lemma SendOne(sent: seq<Sent>, x: Sent)
    ensures Packets(sent + [x]) + [] == Packets(sent) + [] + [x.packet]
  {
  }

  lemma SendAll(sent: seq<Sent>, fd: Fd, waiting: seq<Packet>)
    ensures Packets(sent + On(fd, waiting)) + [] == Packets(sent) + waiting
  {
  }

  /** In order and exactly once: what was sent, each packet on the connection of its time,
      and what is queued are what is owed, and nothing waits while a client is connected. */
  lemma Delivery(h: seq<Event>, id: Id)
    requires Legal(h) && Safe(h)
    ensures Run(h).Some?
    ensures id !in Run(h).value.clients ==> Owed(h, id) == []
    ensures id in Run(h).value.clients ==>
              var c := Run(h).value.clients[id];
              && Packets(c.sent) + c.queue == Owed(h, id) && c.sent == Dispatched(h, id)
              && c.connected == Connection(h, id).Some?
              && (c.connected ==> c.queue == [] && Packets(c.sent) == Owed(h, id))
  {
    SafeRunsKeepInv(h);
    assert Tracks(h, Run(h).value, id);
    DispatchedThenPending(h, id);
    if id in Run(h).value.clients {
      var c := Run(h).value.clients[id];
      assert c.queue == [] ==> Packets(c.sent) + c.queue == Packets(c.sent);
    }
  }

  /** topic_has_sf inserts nothing when a packet is published. */
  lemma SfLookupInsertsNothing(h: seq<Event>, id: Id, t: Topic)
    requires Legal(h) && Safe(h)
    ensures Run(h).Some?
    ensures id in SubscribersOf(Run(h).value, t) <==>
            id in Run(h).value.clients && t in Run(h).value.clients[id].topics
    ensures id in SubscribersOf(Run(h).value, t) ==>
            TouchSf(Run(h).value.clients[id], t) == Run(h).value.clients[id]
  {
    SafeRunsKeepInv(h);
    assert Agree(Run(h).value, id);
  }

  /** No two clients are connected on one descriptor, and each descriptor leads back
      to its client unless its entry was erased. */
  lemma DescriptorsAreDistinct(h: seq<Event>, a: Id, b: Id)
    requires Legal(h) && Safe(h) && Connection(h, a).Some?
    ensures Connection(h, a) == Connection(h, b) ==> a == b
    ensures Run(h).Some?
    ensures IdOf(Run(h).value, Connection(h, a).value) == if Erased(h, Connection(h, a).value) then [] else a
  {
    SafeRunsKeepInv(h);
    assert Tracks(h, Run(h).value, a) && Tracks(h, Run(h).value, b);
  }

  /** A request is refused exactly when it changes nothing, told from the events. */
  lemma AnswersFromEvents(h: seq<Event>, e: Event)
    requires Legal(h) && Safe(h) && LegalEvent(h, e) && SafeEvent(h, e)
    ensures Run(h).Some?
    ensures e.Connect? ==> AnswerTo(Run(h).value, e) == if Connection(h, e.id).Some? then Exit else Silence
    ensures e.Subscribe? || e.Unsubscribe? ==>
              exists id :: Connection(h, id) == Some(e.fd) && AnswerTo(Run(h).value, e) ==
                if Subscription(h, id, e.topic) == (if e.Subscribe? then Some(e.sf) else None) then Error else Confirm
    ensures AnswerTo(Run(h).value, e) in {Exit, Error} ==> Step(Run(h).value, e) == Some(Run(h).value)
  {
    SafeRunsKeepInv(h);
    var s := Run(h).value;
    if e.Connect? {
      assert Tracks(h, s, e.id);
    } else if !e.Publish? {
      var id := OpenMapsBack(h, s, e.fd);
      assert Tracks(h, s, id);
    }
  }

  // ----------------------------------------------------------------- nothing lost

  function OnTopic(ps: seq<Packet>, t: Topic): seq<Packet> {
    if ps == [] then []
    else OnTopic(Front(ps), t) + if Last(ps).topic == t then [Last(ps)] else []
  }

  function Published(h: seq<Event>, t: Topic): seq<Packet> {
    if h == [] then []
    else Published(Front(h), t) + if Last(h).Publish? && Last(h).packet.topic == t then [Last(h).packet] else []
  }

  lemma OnTopicAppend(ps: seq<Packet>, p: Packet, t: Topic)
    ensures OnTopic(ps + [p], t) == OnTopic(ps, t) + if p.topic == t then [p] else []
  {
    assert Front(ps + [p]) == ps && Last(ps + [p]) == p;
  }

  lemma OwedStep(h: seq<Event>, id: Id, t: Topic)
    requires h != [] && Subscription(Front(h), id, t) == Some(true)
    ensures OnTopic(Owed(h, id), t) ==
              OnTopic(Owed(Front(h), id), t) +
              if Last(h).Publish? && Last(h).packet.topic == t then [Last(h).packet] else []
  {
    if Last(h).Publish? {
      OnTopicAppend(Owed(Front(h), id), Last(h).packet, t);
    }
  }

  lemma SplitLast(h: seq<Event>, k: nat)
    requires k < |h|
    ensures Front(h)[..k] == h[..k] && h[..|h| - 1] == Front(h)
    ensures Front(h[k..]) == Front(h)[k..] && Last(h[k..]) == Last(h)
  {
  }

  lemma PublishedStep(h: seq<Event>, k: nat, t: Topic)
    requires k < |h|
    ensures Published(h[k..], t) ==
              Published(Front(h)[k..], t) +
              if Last(h).Publish? && Last(h).packet.topic == t then [Last(h).packet] else []
  {
    SplitLast(h, k);
  }

  /** While a subscription with SF lasts, its client is owed every packet on the topic. */
  lemma {:induction false} SfLosesNothing(h: seq<Event>, k: nat, id: Id, t: Topic)
    requires k <= |h|
    requires forall j :: k <= j <= |h| ==> Subscription(h[..j], id, t) == Some(true)
    ensures OnTopic(Owed(h, id), t) == OnTopic(Owed(h[..k], id), t) + Published(h[k..], t)
  {
    if k == |h| {
      assert h[..k] == h && h[k..] == [];
    } else {
      SplitLast(h, k);
      forall j | k <= j <= |Front(h)| ensures Subscription(Front(h)[..j], id, t) == Some(true) {
        assert Front(h)[..j] == h[..j];
      }
      SfLosesNothing(Front(h), k, id, t);
      OwedStep(h, id, t);
      PublishedStep(h, k, t);
    }
  }

  /** So when the client is connected at the end, all of them have been sent to it, in
      order, behind what it was owed before. */
  lemma SfDeliversAll(h: seq<Event>, k: nat, id: Id, t: Topic)
    requires Legal(h) && Safe(h) && Connection(h, id).Some? && k <= |h|
    requires forall j :: k <= j <= |h| ==> Subscription(h[..j], id, t) == Some(true)
    ensures Run(h).Some? && id in Run(h).value.clients
    ensures OnTopic(Packets(Run(h).value.clients[id].sent), t) == OnTopic(Owed(h[..k], id), t) + Published(h[k..], t)
  {
    SafeRunsKeepInv(h);
    assert Tracks(h, Run(h).value, id);
    Delivery(h, id);
    SfLosesNothing(h, k, id, t);
  }

  // ----------------------------------------------------- exactly the safe runs

  ghost predicate IdsAreNamed(h: seq<Event>) {
    forall k :: 0 <= k < |h| && h[k].Connect? ==> h[k].id != []
  }

  lemma {:induction false} NoEmptyClient(h: seq<Event>)
    requires IdsAreNamed(h) && Run(h).Some?
    ensures [] !in Run(h).value.clients
  {
    if h != [] {
      NoEmptyClient(Front(h));
      assert h[|h| - 1] == Last(h);
    }
  }

  /** The server survives exactly the runs in which no message arrives on a descriptor
      that was erased under its client. */
  lemma {:induction false} SurvivesExactlySafeRuns(h: seq<Event>)
    requires Legal(h) && IdsAreNamed(h)
    ensures Run(h).Some? <==> Safe(h)
  {
    if h != [] {
      SurvivesExactlySafeRuns(Front(h));
      if Safe(Front(h)) {
        SafeRunsKeepInv(Front(h));
        if SafeEvent(Front(h), Last(h)) {
          StepKeepsInv(h, Run(Front(h)).value);
        } else {
          NoEmptyClient(Front(h));
        }
      }
    }
  }

  /** Whoever reconnects finds nobody connected on the descriptor it used last. */
  ghost predicate LeavesDescriptorsAlone(h: seq<Event>) {
    forall k :: 0 <= k < |h| ==> forall fd :: !Erases(h[..k], h[k], fd)
  }

  /** Then nothing is ever erased. */
  lemma {:induction false} NothingErased(h: seq<Event>, fd: Fd)
    requires LeavesDescriptorsAlone(h)
    ensures !Erased(h, fd)
  {
    if h != [] {
      var f := Front(h);
      forall k | 0 <= k < |f| ensures forall gone :: !Erases(f[..k], f[k], gone) {
        assert f[..k] == h[..k] && f[k] == h[k];
      }
      NothingErased(f, fd);
      assert h[..|h| - 1] == f && h[|h| - 1] == Last(h);
    }
  }

  lemma {:induction false} AloneIsSafe(h: seq<Event>)
    requires LeavesDescriptorsAlone(h)
    ensures Safe(h)
  {
    if h != [] {
      var f := Front(h);
      forall k | 0 <= k < |f| ensures forall gone :: !Erases(f[..k], f[k], gone) {
        assert f[..k] == h[..k] && f[k] == h[k];
      }
      AloneIsSafe(f);
      if IsMessage(Last(h)) { NothingErased(f, Last(h).fd); }
    }
  }

  /** One reconnection takes a connected client's descriptor from it exactly when somebody
      is connected on the one that was used last. */
  lemma ReconnectNeedsOldFdFree(h: seq<Event>, s: State, fd: Fd, id: Id)
    requires Inv(h, s) && !Open(h, fd) && forall gone :: !Erased(h, gone)
    requires id in s.clients && !s.clients[id].connected
    ensures var r := StepConnect(s, fd, id);
      (forall who :: who in r.clients && r.clients[who].connected ==> LeadsBack(r, who))
      <==> !Open(h, s.clients[id].fd)
  {
    var r := StepConnect(s, fd, id);
    assert Tracks(h, s, id);
    if Open(h, s.clients[id].fd) {
      var other := OpenMapsBack(h, s, s.clients[id].fd);
      assert Tracks(h, s, other) && Connection(h, other) != Some(fd);
      assert other in r.clients && r.clients[other].connected && !LeadsBack(r, other);
    } else {
      forall who | who in r.clients && r.clients[who].connected ensures LeadsBack(r, who) {
        assert Tracks(h, s, who);
        if who != id {
          assert LeadsBack(s, who) && Connection(h, who) == Some(s.clients[who].fd);
        }
      }
    }
  }

  /** Otherwise the next message of the client there ends the server. */
  lemma StolenDescriptorCrashes(h: seq<Event>, s: State, fd: Fd, id: Id, e: Event)
    requires Inv(h, s) && !Open(h, fd) && [] !in s.clients
    requires id in s.clients && id != [] && !s.clients[id].connected
    requires IsMessage(e) && e.fd == s.clients[id].fd && e.fd != fd
    ensures Step(StepConnect(s, fd, id), e) == None
  {
  }

  /** Ordinary descriptor reuse is enough: a closes 5, b is given 5, a comes back on 6,
      and b subscribes. */
  lemma ReusedDescriptorCrashes(a: Id, b: Id, t: Topic)
    requires a != b && a != [] && b != []
    ensures Run([Connect(5, a), Close(5), Connect(5, b), Connect(6, a)]).Some?
    ensures Run([Connect(5, a), Close(5), Connect(5, b), Connect(6, a), Subscribe(5, t, true)]) == None
  {
    var h1 := [] + [Connect(5, a)];
    var h2 := h1 + [Close(5)];
    var h3 := h2 + [Connect(5, b)];
    var h4 := h3 + [Connect(6, a)];
    RunAppend([], Connect(5, a));
    RunAppend(h1, Close(5));
    RunAppend(h2, Connect(5, b));
    RunAppend(h3, Connect(6, a));
    RunAppend(h4, Subscribe(5, t, true));
    assert 5 !in Run(h4).value.fdToId;
    assert h4 == [Connect(5, a), Close(5), Connect(5, b), Connect(6, a)];
    assert h4 + [Subscribe(5, t, true)] ==
           [Connect(5, a), Close(5), Connect(5, b), Connect(6, a), Subscribe(5, t, true)];
  }

  lemma RunAppend(h: seq<Event>, e: Event)
    ensures Run(h + [e]) == if Run(h).Some? then Step(Run(h).value, e) else None
  {
    assert Front(h + [e]) == h;
  }
}
