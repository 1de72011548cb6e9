/** What the relay promises over any history of upgrades, messages, closes
    and errors: each as-written handler acts on the registry's current
    contents exactly as `Registry.Join`, `Registry.Leave` and
    `Broadcast.Deliveries` do. */
module Properties {
  import opened Wrappers
  import opened Registry
  import opened Broadcast
  import opened Relay

  /** The set a live socket's handlers captured at upgrade is still the map's
      entry for its room (main.ts:29 against main.ts:54-55). */
  lemma CapturedSetIsCurrentEntry(events: seq<Event>, s: Socket)
    requires Live(Run(events), s)
    ensures var srv := Run(events); var h := srv.handlers[s];
      h.roomId in srv.rooms && srv.rooms[h.roomId] == h.peers && s in View(srv)[h.roomId]
  {
    RunInv(events);
  }

  /** No room with no members lingers, and no room lists a member twice. */
  lemma NoEmptyRooms(events: seq<Event>)
    ensures WellFormed(View(Run(events)))
  {
    RunInv(events);
  }

  /** A room's members are exactly the sockets upgraded into it whose close
      has not fired; in particular a socket is in at most one room. */
  lemma MembersAreJoinedNotLeft(events: seq<Event>, roomId: string, x: Socket)
    ensures var srv := Run(events);
      x in Members(View(srv), roomId) <==> Live(srv, x) && srv.handlers[x].roomId == roomId
  {
    var srv := Run(events);
    RunInv(events);
    if Live(srv, x) && srv.handlers[x].roomId == roomId {
      assert x in View(srv)[roomId];
    }
  }

  /** On the equations of an upgrade, the represented registry changes as
      `Registry.Join` says. */
  lemma UpgradedView(srv: Server, roomId: string, s: Socket, peers: SetRef, r: Server)
    requires RefsBelow(srv) && RoomsNonEmpty(srv) && RoomsDistinct(srv)
    requires Upgraded(srv, roomId, s, peers, r)
    ensures View(r) == Join(View(srv), roomId, s)
  {
    UpgradedSet(srv, roomId, s, peers, r);
    UpgradedViewEntries(srv, roomId, s, peers, r);
    assert Deref(srv.heap, peers) == if roomId in View(srv) then View(srv)[roomId] else [];
  }

  /** The map equation behind `UpgradedView`, stated without `Join`. */
  lemma UpgradedViewEntries(srv: Server, roomId: string, s: Socket, peers: SetRef, r: Server)
    requires RefsBelow(srv) && RoomsNonEmpty(srv) && RoomsDistinct(srv)
    requires Upgraded(srv, roomId, s, peers, r)
    ensures View(r) == View(srv)[roomId := Add(Deref(srv.heap, peers), s)]
  {
    var expected := View(srv)[roomId := Add(Deref(srv.heap, peers), s)];
    assert View(r).Keys == expected.Keys;
    forall k | k in expected
      ensures View(r)[k] == expected[k]
    {
      if k != roomId {
        UpgradedViewOther(srv, roomId, s, peers, r, k);
      }
    }
  }

  /** An upgrade leaves every other room's entry as it was. */
  lemma UpgradedViewOther(srv: Server, roomId: string, s: Socket, peers: SetRef, r: Server, k: string)
    requires RefsBelow(srv) && RoomsNonEmpty(srv) && RoomsDistinct(srv)
    requires Upgraded(srv, roomId, s, peers, r)
    requires k in srv.rooms && k != roomId
    ensures k in View(r) && View(r)[k] == View(srv)[k]
  {
    UpgradedSet(srv, roomId, s, peers, r);
    assert r.rooms[k] == srv.rooms[k] && srv.rooms[k] != peers;
  }

  /** The upgrade branch adds the new socket to its room's current entry
      and touches no other room: it is `Registry.Join`. */
  lemma UpgradeIsJoin(srv: Server, roomId: string)
    requires Inv(srv)
    ensures View(OnUpgrade(srv, roomId)) == Join(View(srv), roomId, NextSocket(srv))
  {
    var r := OnUpgrade(srv, roomId);
    UpgradeEffect(srv, roomId);
    UpgradedView(srv, roomId, NextSocket(srv), r.rooms[roomId], r);
  }

  /** On the equations of a close, the represented registry changes as
      `Registry.Leave` says. */
  lemma ClosedView(srv: Server, s: Socket, r: Server)
    requires RoomsNonEmpty(srv) && RoomsDistinct(srv) && Closed(srv, s, r)
    ensures View(r) == Leave(View(srv), srv.handlers[s].roomId, s)
  {
    var h := srv.handlers[s];
    ClosedViewEntries(srv, s, r);
    assert View(srv)[h.roomId] == srv.heap[h.peers];
  }

  /** The map equation behind `ClosedView`, stated without `Leave`. */
  lemma ClosedViewEntries(srv: Server, s: Socket, r: Server)
    requires RoomsNonEmpty(srv) && RoomsDistinct(srv) && Closed(srv, s, r)
    ensures var h := srv.handlers[s];
      var remaining := Remove(srv.heap[h.peers], s);
      View(r) == if |remaining| == 0 then View(srv) - {h.roomId} else View(srv)[h.roomId := remaining]
  {
    var h := srv.handlers[s];
    var remaining := Remove(srv.heap[h.peers], s);
    var expected := if |remaining| == 0 then View(srv) - {h.roomId} else View(srv)[h.roomId := remaining];
    assert View(r).Keys == expected.Keys;
    forall k | k in expected
      ensures View(r)[k] == expected[k]
    {
      if k != h.roomId {
        ClosedViewOther(srv, s, r, k);
      }
    }
  }

  /** A close leaves every other room's entry as it was. */
  lemma ClosedViewOther(srv: Server, s: Socket, r: Server, k: string)
    requires RoomsNonEmpty(srv) && RoomsDistinct(srv) && Closed(srv, s, r)
    requires k in srv.rooms && k != srv.handlers[s].roomId
    ensures k in View(r) && View(r)[k] == View(srv)[k]
  {
    assert srv.rooms[k] != srv.handlers[s].peers;
  }

  /** The close handler removes the socket from its room's current entry,
      deletes the key once the set is empty, and touches no other room: it
      is `Registry.Leave`. */
  lemma CloseIsLeave(srv: Server, s: Socket)
    requires Inv(srv) && Live(srv, s)
    ensures View(OnClose(srv, s)) == Leave(View(srv), srv.handlers[s].roomId, s)
  {
    CloseEffect(srv, s);
    ClosedView(srv, s, OnClose(srv, s));
  }

  /** Each delivered event moves the represented registry as the abstract
      operations do; messages and errors leave it as it was. */
  lemma StepRefines(srv: Server, e: Event)
    requires Inv(srv)
    ensures View(Step(srv, e)) == match e
      case Upgrade(roomId) => Join(View(srv), roomId, NextSocket(srv))
      case Close(s) => if Live(srv, s) then Leave(View(srv), srv.handlers[s].roomId, s) else View(srv)
      case Message(_, _) => View(srv)
      case Error(_) => View(srv)
  {
    match e
    case Upgrade(roomId) => UpgradeIsJoin(srv, roomId);
    case Close(s) => if Live(srv, s) { CloseIsLeave(srv, s); }
    case Message(_, _) =>
    case Error(_) =>
  }

  /** The fan-out iterates the room's current members: the message handler
      is `Broadcast.Deliveries` over the registry entry of the sender's room,
      followed by one publication. */
  lemma MessageRefinesBroadcast<V>(srv: Server, s: Socket, frame: string,
                                   parse: string -> Option<V>, serialise: V -> string,
                                   isOpen: Socket -> bool)
    requires Inv(srv) && Live(srv, s)
    ensures var roomId := srv.handlers[s].roomId;
      && roomId in View(srv)
      && OnMessage(srv, s, frame, parse, serialise, isOpen) == match parse(frame)
           case None => Dropped
           case Some(msg) =>
             Relayed(Deliveries(View(srv)[roomId], s, isOpen, serialise(msg)), Publication(roomId, msg))
  {
  }

  /** A well-formed frame from a live sender is re-serialised and sent once
      to every other live member of the sender's room whose socket is open,
      and to no one else: not the sender, not a closed socket, not a member
      of another room. */
  lemma BroadcastReachesRoomMinusSender<V>(events: seq<Event>, s: Socket, frame: string,
                                           parse: string -> Option<V>, serialise: V -> string,
                                           isOpen: Socket -> bool, x: Socket)
    requires Live(Run(events), s)
    requires parse(frame).Some?
    ensures var srv := Run(events);
      var out := OnMessage(srv, s, frame, parse, serialise, isOpen);
      var payload := serialise(parse(frame).value);
      && out.Relayed?
      && (forall i :: 0 <= i < |out.sends| ==> out.sends[i].frame == payload)
      && multiset(out.sends)[Send(x, payload)] ==
           if Live(srv, x) && srv.handlers[x].roomId == srv.handlers[s].roomId && x != s && isOpen(x)
           then 1 else 0
  {
    var srv := Run(events);
    RunInv(events);
    var roomId := srv.handlers[s].roomId;
    MessageRefinesBroadcast(srv, s, frame, parse, serialise, isOpen);
    MembersAreJoinedNotLeft(events, roomId, x);
    DeliveriesExactlyOnce(View(srv)[roomId], s, isOpen, serialise(parse(frame).value), x);
  }

  /** A sender alone in its room sends nothing, and the registry is left as
      it was. */
  lemma SoleMemberSendsNothing<V>(events: seq<Event>, s: Socket, frame: string,
                                  parse: string -> Option<V>, serialise: V -> string,
                                  isOpen: Socket -> bool)
    requires Live(Run(events), s)
    ensures var srv := Run(events);
      Members(View(srv), srv.handlers[s].roomId) == {s} ==>
        && (OnMessage(srv, s, frame, parse, serialise, isOpen).Relayed? ==>
              OnMessage(srv, s, frame, parse, serialise, isOpen).sends == [])
        && Run(events + [Message(s, frame)]) == srv
  {
    var srv := Run(events);
    RunInv(events);
    var roomId := srv.handlers[s].roomId;
    if Members(View(srv), roomId) == {s} {
      MessageRefinesBroadcast(srv, s, frame, parse, serialise, isOpen);
      match parse(frame)
      case None =>
      case Some(msg) =>
        assert forall y :: y in View(srv)[roomId] ==> y in Members(View(srv), roomId);
        NoOtherOpenMemberNoSends(View(srv)[roomId], s, isOpen, serialise(msg));
      RunSnoc(events, Message(s, frame));
    }
  }

  /** A frame that does not parse is dropped: no sends, no publication, the
      registry unchanged and the sender still connected and in its room. */
  lemma MalformedFrameIsDropped<V>(events: seq<Event>, s: Socket, frame: string,
                                   parse: string -> Option<V>, serialise: V -> string,
                                   isOpen: Socket -> bool)
    requires Live(Run(events), s)
    requires parse(frame).None?
    ensures OnMessage(Run(events), s, frame, parse, serialise, isOpen) == Dropped
    ensures var after := Run(events + [Message(s, frame)]);
      after == Run(events) && Live(after, s)
      && s in Members(View(after), after.handlers[s].roomId)
  {
    RunInv(events);
    RunSnoc(events, Message(s, frame));
    MembersAreJoinedNotLeft(events, Run(events).handlers[s].roomId, s);
  }

  /** The error handler only logs: the socket stays live and in its room. */
  lemma ErrorDoesNotLeave(events: seq<Event>, s: Socket)
    requires Live(Run(events), s)
    ensures var after := Run(events + [Error(s)]);
      after == Run(events) && Live(after, s)
      && s in Members(View(after), after.handlers[s].roomId)
  {
    RunInv(events);
    RunSnoc(events, Error(s));
    MembersAreJoinedNotLeft(events, Run(events).handlers[s].roomId, s);
  }

  /** The close handler must run at most once per socket: run a second time
      after the socket's room was emptied and then re-created by a new peer,
      it deletes the key of the new, non-empty room, because it tests the
      size of the set it captured but deletes by room id. */
  lemma SecondCloseDeletesLiveRoom()
    ensures var first := Run([Upgrade("a"), Close(Socket(0)), Upgrade("a")]);
      && Live(first, Socket(1))
      && Members(View(first), "a") == {Socket(1)}
      && Socket(0) in first.handlers
      && "a" !in OnClose(first, Socket(0)).rooms
      && Live(OnClose(first, Socket(0)), Socket(1))
  {
    var e := [Upgrade("a"), Close(Socket(0)), Upgrade("a")];
    assert e[..2] == [Upgrade("a"), Close(Socket(0))];
    assert e[..2][..1] == [Upgrade("a")];
    assert e[..2][..1][..0] == [];
    var s0 := Run([Upgrade("a")]);
    assert s0.rooms == map["a" := SetRef(0)];
    assert s0.heap == map[SetRef(0) := [Socket(0)]];
    var s1 := Run(e[..2]);
    assert s1.rooms == map[];
    var first := Run(e);
    assert first.rooms == map["a" := SetRef(1)];
    assert first.heap[SetRef(1)] == [Socket(1)];
    assert first.heap[SetRef(0)] == [];
    assert Elems([Socket(1)]) == {Socket(1)};
  }
}
