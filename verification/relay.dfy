/** The relay's handlers as written (main.ts:14, 28-30, 37-55, 59). The
    registry maps a room id to a *reference* to a mutable set; each socket's
    handlers close over its room id and the reference obtained when it
    joined (main.ts:29), and later read and mutate that set through the
    reference rather than through the map. The model keeps the sets in a
    heap and proves that, in every reachable state, the reference a live
    socket captured is still the map's entry for its room, so the handlers
    behave like `Registry.Join`, `Registry.Leave` and `Broadcast.Deliveries`
    on the registry's current contents. */
module Relay {
  import opened Wrappers
  import opened Registry
  import opened Broadcast

  /** The identity of one `Set` object. */
  datatype SetRef = SetRef(addr: nat)

  /** The variables a socket's handlers close over: its room id and the set
      it was added to. */
  datatype Handler = Handler(roomId: string, peers: SetRef)

  /** The process's state: the `rooms` map (main.ts:14), the contents of
      every set object ever created, the handlers attached to every socket
      ever upgraded, the sockets whose close event has fired, and the next
      fresh set and socket identities. */
  datatype Server = Server(
    rooms: map<string, SetRef>,
    heap: map<SetRef, Peers>,
    handlers: map<Socket, Handler>,
    closed: set<Socket>,
    nextRef: nat,
    nextSocket: nat)

  /** The events the runtime delivers to the core, one handler at a time. */
  datatype Event =
    | Upgrade(roomId: string)
    | Message(socket: Socket, frame: string)
    | Close(socket: Socket)
    | Error(socket: Socket)

  /** What one inbound frame produces: nothing when it does not parse, or
      the sends of the fan-out followed by one publication to the
      cross-instance channel (main.ts:47). */
  datatype Publication<V> = Publication(roomId: string, msg: V)
  datatype MessageOutcome<V> =
    | Dropped
    | Relayed(sends: seq<Send>, published: Publication<V>)

  /** No rooms, no sockets. */
  function Init(): Server
  {
    Server(map[], map[], map[], {}, 0, 0)
  }

  /** The contents of a set object (empty for one never created). */
  function Deref(heap: map<SetRef, Peers>, ref: SetRef): Peers
  {
    if ref in heap then heap[ref] else []
  }

  /** A socket that was upgraded and whose close event has not fired. */
  predicate Live(srv: Server, s: Socket)
  {
    s in srv.handlers && s !in srv.closed
  }

  /** The socket the next upgrade hands to the core. */
  function NextSocket(srv: Server): Socket
  {
    Socket(srv.nextSocket)
  }

  /** The upgrade branch (main.ts:28-30): when the room's key is absent a
      new empty set is created and stored under it; the new socket is added
      to the room's set, and its handlers capture the room id and that set. */
  function OnUpgrade(srv: Server, roomId: string): (r: Server)
    ensures roomId in r.rooms && r.rooms[roomId] in r.heap
    ensures r.rooms == srv.rooms[roomId := r.rooms[roomId]]
    ensures roomId in srv.rooms ==> r.rooms[roomId] == srv.rooms[roomId]
    ensures NextSocket(srv) in r.handlers && r.handlers[NextSocket(srv)] == Handler(roomId, r.rooms[roomId])
    ensures NextSocket(srv) in r.heap[r.rooms[roomId]]
    ensures roomId !in srv.rooms ==> r.heap[r.rooms[roomId]] == [NextSocket(srv)]
    ensures roomId in srv.rooms ==>
      Elems(r.heap[r.rooms[roomId]]) == Elems(Deref(srv.heap, srv.rooms[roomId])) + {NextSocket(srv)}
    ensures roomId in srv.rooms ==>
      var before := Deref(srv.heap, srv.rooms[roomId]);
      var after := r.heap[r.rooms[roomId]];
      && |before| <= |after| <= |before| + 1
      && after[..|before|] == before
      && (NoDup(before) ==> NoDup(after))
    ensures RefsBelow(srv) && roomId !in srv.rooms ==> r.rooms[roomId] !in srv.heap
    ensures r.heap == srv.heap[r.rooms[roomId] := r.heap[r.rooms[roomId]]]
    ensures r.handlers == srv.handlers[NextSocket(srv) := r.handlers[NextSocket(srv)]]
    ensures r.closed == srv.closed
  {
    var s := NextSocket(srv);
    if roomId in srv.rooms then
      var peers := srv.rooms[roomId];
      srv.(rooms := srv.rooms[roomId := peers],
           heap := srv.heap[peers := Add(Deref(srv.heap, peers), s)],
           handlers := srv.handlers[s := Handler(roomId, peers)],
           nextSocket := srv.nextSocket + 1)
    else
      var peers := SetRef(srv.nextRef);
      srv.(rooms := srv.rooms[roomId := peers],
           heap := srv.heap[peers := Add([], s)],
           handlers := srv.handlers[s := Handler(roomId, peers)],
           nextRef := srv.nextRef + 1,
           nextSocket := srv.nextSocket + 1)
  }

  /** The close handler (main.ts:53-55): delete the socket from the set it
      captured, and, if that set is now empty, delete the room id's key,
      whatever set the key maps to at that moment. */
  function OnClose(srv: Server, s: Socket): (r: Server)
    requires s in srv.handlers
    ensures !Live(r, s) && r.handlers == srv.handlers
    ensures r.closed == srv.closed + {s}
    ensures srv.handlers[s].peers in r.heap && s !in r.heap[srv.handlers[s].peers]
    ensures Elems(r.heap[srv.handlers[s].peers]) == Elems(Deref(srv.heap, srv.handlers[s].peers)) - {s}
    ensures var before := Deref(srv.heap, srv.handlers[s].peers);
      var after := r.heap[srv.handlers[s].peers];
      NoDup(before) ==>
        && NoDup(after)
        && forall i :: 0 <= i < |before| && before[i] == s ==> after == before[..i] + before[i + 1..]
    ensures r.heap == srv.heap[srv.handlers[s].peers := r.heap[srv.handlers[s].peers]]
    ensures |r.heap[srv.handlers[s].peers]| == 0 ==> r.rooms == srv.rooms - {srv.handlers[s].roomId}
    ensures |r.heap[srv.handlers[s].peers]| > 0 ==> r.rooms == srv.rooms
  {
    var h := srv.handlers[s];
    var remaining := Remove(Deref(srv.heap, h.peers), s);
    RemoveShape(Deref(srv.heap, h.peers), s);
    srv.(rooms := if |remaining| == 0 then srv.rooms - {h.roomId} else srv.rooms,
         heap := srv.heap[h.peers := remaining],
         closed := srv.closed + {s})
  }

  /** The message handler (main.ts:37-50): a frame that does not parse is
      dropped; otherwise the parsed value is re-serialised and sent to
      every other OPEN member of the captured set, then published. */
  function OnMessage<V>(srv: Server, s: Socket, frame: string,
                        parse: string -> Option<V>, serialise: V -> string,
                        isOpen: Socket -> bool): (r: MessageOutcome<V>)
    requires s in srv.handlers
    ensures r.Dropped? <==> parse(frame).None?
    ensures r.Relayed? ==>
      && r.published == Publication(srv.handlers[s].roomId, parse(frame).value)
      && forall i :: 0 <= i < |r.sends| ==>
           r.sends[i].frame == serialise(parse(frame).value) && r.sends[i].to != s && isOpen(r.sends[i].to)
  {
    var h := srv.handlers[s];
    match parse(frame)
    case None => Dropped
    case Some(msg) =>
      Relayed(Deliveries(Deref(srv.heap, h.peers), s, isOpen, serialise(msg)), Publication(h.roomId, msg))
  }

  /** One delivered event. The runtime fires a socket's handlers only after
      its upgrade, and its close event at most once; an event outside that
      discipline is never delivered and so changes nothing. Messages and
      errors do not change the registry (the error handler only logs). */
  function Step(srv: Server, e: Event): Server
  {
    match e
    case Upgrade(roomId) => OnUpgrade(srv, roomId)
    case Close(s) => if Live(srv, s) then OnClose(srv, s) else srv
    case Message(_, _) => srv
    case Error(_) => srv
  }

  /** The state after a sequence of events from startup. */
  function Run(events: seq<Event>): Server
    decreases |events|
  {
    if |events| == 0 then Init()
    else Step(Run(events[..|events| - 1]), events[|events| - 1])
  }

  /** Running one more event is one more step. */
  lemma RunSnoc(events: seq<Event>, e: Event)
    ensures Run(events + [e]) == Step(Run(events), e)
  {
    assert (events + [e])[..|events|] == events;
  }

  /** The registry the server represents: each room id with the current
      contents of the set its key maps to. */
  function View(srv: Server): Rooms
  {
    map k | k in srv.rooms :: Deref(srv.heap, srv.rooms[k])
  }

  /** Every set object was created before the next fresh identity. */
  ghost predicate RefsBelow(srv: Server)
  {
    forall ref :: ref in srv.heap ==> ref.addr < srv.nextRef
  }

  /** Every socket that is a member or has handlers was upgraded before the
      next fresh identity. */
  ghost predicate SocketsBelow(srv: Server)
  {
    && (forall ref, x :: ref in srv.heap && x in srv.heap[ref] ==> x.id < srv.nextSocket)
    && (forall x :: x in srv.handlers ==> x.id < srv.nextSocket)
  }

  /** Every handler's captured set exists; only upgraded sockets close. */
  ghost predicate HandlersAttached(srv: Server)
  {
    && (forall x :: x in srv.handlers ==> srv.handlers[x].peers in srv.heap)
    && srv.closed <= srv.handlers.Keys
  }

  /** Set semantics: no set lists a socket twice. */
  ghost predicate SetsNoDup(srv: Server)
  {
    forall ref :: ref in srv.heap ==> NoDup(srv.heap[ref])
  }

  /** No empty room lingers: every key maps to an existing, non-empty set. */
  ghost predicate RoomsNonEmpty(srv: Server)
  {
    forall k :: k in srv.rooms ==> srv.rooms[k] in srv.heap && |srv.heap[srv.rooms[k]]| > 0
  }

  /** Distinct room ids map to distinct sets. */
  ghost predicate RoomsDistinct(srv: Server)
  {
    forall k1, k2 :: k1 in srv.rooms && k2 in srv.rooms && k1 != k2 ==> srv.rooms[k1] != srv.rooms[k2]
  }

  /** A live socket's captured set is its room's current entry and holds it. */
  ghost predicate CapturedIsCurrent(srv: Server)
  {
    forall x :: Live(srv, x) ==>
      && srv.handlers[x].roomId in srv.rooms
      && srv.rooms[srv.handlers[x].roomId] == srv.handlers[x].peers
      && srv.handlers[x].peers in srv.heap
      && x in srv.heap[srv.handlers[x].peers]
  }

  /** Every member of a room is live and was upgraded into that room. */
  ghost predicate MembersAreLive(srv: Server)
  {
    forall k, x :: k in srv.rooms && srv.rooms[k] in srv.heap && x in srv.heap[srv.rooms[k]] ==>
      Live(srv, x) && srv.handlers[x].roomId == k
  }

  /** The invariant of every reachable state. */
  ghost predicate Inv(srv: Server)
  {
    && RefsBelow(srv) && SocketsBelow(srv) && HandlersAttached(srv) && SetsNoDup(srv)
    && RoomsNonEmpty(srv) && RoomsDistinct(srv) && CapturedIsCurrent(srv) && MembersAreLive(srv)
  }

  lemma InitInv()
    ensures Inv(Init())
  {
  }

  /** An upgrade of socket `s` into `roomId`, adding it to the set `peers`,
      takes `srv` to `r`: the equations the proofs below work from. */
  ghost predicate Upgraded(srv: Server, roomId: string, s: Socket, peers: SetRef, r: Server)
  {
    && s == NextSocket(srv)
    && (roomId in srv.rooms ==> peers == srv.rooms[roomId] && r.nextRef == srv.nextRef)
    && (roomId !in srv.rooms ==> peers == SetRef(srv.nextRef) && r.nextRef == srv.nextRef + 1)
    && r.rooms == srv.rooms[roomId := peers]
    && r.heap == srv.heap[peers := Add(Deref(srv.heap, peers), s)]
    && r.handlers == srv.handlers[s := Handler(roomId, peers)]
    && r.closed == srv.closed
    && r.nextSocket == srv.nextSocket + 1
  }

  lemma UpgradeEffect(srv: Server, roomId: string)
    requires RefsBelow(srv)
    ensures var r := OnUpgrade(srv, roomId); Upgraded(srv, roomId, NextSocket(srv), r.rooms[roomId], r)
  {
    assert SetRef(srv.nextRef) !in srv.heap;
  }

  /** The set an upgrade adds to is the room's existing set or a new one. */
  lemma UpgradedSet(srv: Server, roomId: string, s: Socket, peers: SetRef, r: Server)
    requires RefsBelow(srv) && RoomsNonEmpty(srv) && Upgraded(srv, roomId, s, peers, r)
    ensures roomId in srv.rooms <==> peers in srv.heap
    ensures roomId !in srv.rooms ==> Deref(srv.heap, peers) == []
  {
  }

  lemma UpgradedRefsBelow(srv: Server, roomId: string, s: Socket, peers: SetRef, r: Server)
    requires RefsBelow(srv) && RoomsNonEmpty(srv) && Upgraded(srv, roomId, s, peers, r)
    ensures RefsBelow(r)
  {
  }

  lemma UpgradedSocketsBelow(srv: Server, roomId: string, s: Socket, peers: SetRef, r: Server)
    requires SocketsBelow(srv) && Upgraded(srv, roomId, s, peers, r)
    ensures SocketsBelow(r)
  {
    forall ref, x | ref in r.heap && x in r.heap[ref]
      ensures x.id < r.nextSocket
    {
      if ref != peers {
        assert x in srv.heap[ref];
      }
    }
  }

  lemma UpgradedHandlersAttached(srv: Server, roomId: string, s: Socket, peers: SetRef, r: Server)
    requires HandlersAttached(srv) && Upgraded(srv, roomId, s, peers, r)
    ensures HandlersAttached(r)
  {
  }

  lemma UpgradedSetsNoDup(srv: Server, roomId: string, s: Socket, peers: SetRef, r: Server)
    requires SocketsBelow(srv) && SetsNoDup(srv) && Upgraded(srv, roomId, s, peers, r)
    ensures SetsNoDup(r)
  {
    assert NoDup(Deref(srv.heap, peers));
  }

  lemma UpgradedRoomsNonEmpty(srv: Server, roomId: string, s: Socket, peers: SetRef, r: Server)
    requires RoomsNonEmpty(srv) && Upgraded(srv, roomId, s, peers, r)
    ensures RoomsNonEmpty(r)
  {
  }

  lemma UpgradedRoomsDistinct(srv: Server, roomId: string, s: Socket, peers: SetRef, r: Server)
    requires RefsBelow(srv) && RoomsNonEmpty(srv) && RoomsDistinct(srv) && Upgraded(srv, roomId, s, peers, r)
    ensures RoomsDistinct(r)
  {
    UpgradedSet(srv, roomId, s, peers, r);
  }

  lemma UpgradedCapturedIsCurrent(srv: Server, roomId: string, s: Socket, peers: SetRef, r: Server)
    requires SocketsBelow(srv) && CapturedIsCurrent(srv) && Upgraded(srv, roomId, s, peers, r)
    ensures CapturedIsCurrent(r)
  {
    forall x | Live(r, x)
      ensures r.handlers[x].roomId in r.rooms
      ensures r.rooms[r.handlers[x].roomId] == r.handlers[x].peers
      ensures r.handlers[x].peers in r.heap
      ensures x in r.heap[r.handlers[x].peers]
    {
      if x != s {
        assert Live(srv, x);
      }
    }
  }

  lemma UpgradedMembersAreLive(srv: Server, roomId: string, s: Socket, peers: SetRef, r: Server)
    requires RefsBelow(srv) && SocketsBelow(srv) && HandlersAttached(srv) && RoomsNonEmpty(srv) && RoomsDistinct(srv)
    requires MembersAreLive(srv) && Upgraded(srv, roomId, s, peers, r)
    ensures MembersAreLive(r)
  {
    UpgradedSet(srv, roomId, s, peers, r);
    forall k, x | k in r.rooms && r.rooms[k] in r.heap && x in r.heap[r.rooms[k]]
      ensures Live(r, x) && r.handlers[x].roomId == k
    {
      if k == roomId {
        if x != s {
          assert x in Deref(srv.heap, peers);
          assert x in srv.heap[srv.rooms[k]];
        }
      } else {
        assert r.rooms[k] == srv.rooms[k] && srv.rooms[k] != peers;
        assert x in srv.heap[srv.rooms[k]];
      }
    }
  }

  lemma UpgradeInv(srv: Server, roomId: string)
    requires Inv(srv)
    ensures Inv(OnUpgrade(srv, roomId))
  {
    var r := OnUpgrade(srv, roomId);
    var s := NextSocket(srv);
    var peers := r.rooms[roomId];
    UpgradeEffect(srv, roomId);
    UpgradedRefsBelow(srv, roomId, s, peers, r);
    UpgradedSocketsBelow(srv, roomId, s, peers, r);
    UpgradedHandlersAttached(srv, roomId, s, peers, r);
    UpgradedSetsNoDup(srv, roomId, s, peers, r);
    UpgradedRoomsNonEmpty(srv, roomId, s, peers, r);
    UpgradedRoomsDistinct(srv, roomId, s, peers, r);
    UpgradedCapturedIsCurrent(srv, roomId, s, peers, r);
    UpgradedMembersAreLive(srv, roomId, s, peers, r);
  }

  /** A close of live socket `s`, whose captured set is its room's entry,
      takes `srv` to `r`: the equations the proofs below work from. */
  ghost predicate Closed(srv: Server, s: Socket, r: Server)
  {
    && Live(srv, s)
    && var h := srv.handlers[s];
    && h.roomId in srv.rooms
    && srv.rooms[h.roomId] == h.peers
    && h.peers in srv.heap
    && var remaining := Remove(srv.heap[h.peers], s);
    && r.heap == srv.heap[h.peers := remaining]
    && r.rooms == (if |remaining| == 0 then srv.rooms - {h.roomId} else srv.rooms)
    && r.handlers == srv.handlers
    && r.closed == srv.closed + {s}
    && r.nextRef == srv.nextRef
    && r.nextSocket == srv.nextSocket
  }

  lemma CloseEffect(srv: Server, s: Socket)
    requires CapturedIsCurrent(srv) && Live(srv, s)
    ensures Closed(srv, s, OnClose(srv, s))
  {
  }

  /** A close keeps the other live sockets live. */
  lemma ClosedLive(srv: Server, s: Socket, r: Server)
    requires Closed(srv, s, r)
    ensures forall x :: Live(r, x) <==> Live(srv, x) && x != s
  {
  }

  lemma ClosedRefsBelow(srv: Server, s: Socket, r: Server)
    requires RefsBelow(srv) && Closed(srv, s, r)
    ensures RefsBelow(r)
  {
  }

  lemma ClosedSocketsBelow(srv: Server, s: Socket, r: Server)
    requires SocketsBelow(srv) && Closed(srv, s, r)
    ensures SocketsBelow(r)
  {
    var h := srv.handlers[s];
    forall ref, x | ref in r.heap && x in r.heap[ref]
      ensures x.id < r.nextSocket
    {
      assert x in srv.heap[ref];
    }
  }

  lemma ClosedHandlersAttached(srv: Server, s: Socket, r: Server)
    requires HandlersAttached(srv) && Closed(srv, s, r)
    ensures HandlersAttached(r)
  {
  }

  lemma ClosedSetsNoDup(srv: Server, s: Socket, r: Server)
    requires SetsNoDup(srv) && Closed(srv, s, r)
    ensures SetsNoDup(r)
  {
  }

  lemma ClosedRoomsNonEmpty(srv: Server, s: Socket, r: Server)
    requires RoomsNonEmpty(srv) && RoomsDistinct(srv) && Closed(srv, s, r)
    ensures RoomsNonEmpty(r)
  {
    var h := srv.handlers[s];
    forall k | k in r.rooms
      ensures r.rooms[k] in r.heap && |r.heap[r.rooms[k]]| > 0
    {
      if k != h.roomId {
        assert r.rooms[k] == srv.rooms[k] && srv.rooms[k] != h.peers;
      }
    }
  }

  lemma ClosedRoomsDistinct(srv: Server, s: Socket, r: Server)
    requires RoomsDistinct(srv) && Closed(srv, s, r)
    ensures RoomsDistinct(r)
  {
  }

  lemma ClosedCapturedIsCurrent(srv: Server, s: Socket, r: Server)
    requires RoomsDistinct(srv) && CapturedIsCurrent(srv) && Closed(srv, s, r)
    ensures CapturedIsCurrent(r)
  {
    ClosedLive(srv, s, r);
    var h := srv.handlers[s];
    forall x | Live(r, x)
      ensures r.handlers[x].roomId in r.rooms
      ensures r.rooms[r.handlers[x].roomId] == r.handlers[x].peers
      ensures r.handlers[x].peers in r.heap
      ensures x in r.heap[r.handlers[x].peers]
    {
      var hx := srv.handlers[x];
      assert Live(srv, x) && x != s;
      if hx.roomId == h.roomId {
        assert x in r.heap[h.peers];
      } else {
        assert hx.peers != h.peers;
      }
    }
  }

  lemma ClosedMembersAreLive(srv: Server, s: Socket, r: Server)
    requires RoomsDistinct(srv) && MembersAreLive(srv) && Closed(srv, s, r)
    ensures MembersAreLive(r)
  {
    ClosedLive(srv, s, r);
    var h := srv.handlers[s];
    forall k, x | k in r.rooms && r.rooms[k] in r.heap && x in r.heap[r.rooms[k]]
      ensures Live(r, x) && r.handlers[x].roomId == k
    {
      assert k in srv.rooms && r.rooms[k] == srv.rooms[k];
      if k == h.roomId {
        assert x in Remove(srv.heap[h.peers], s);
      } else {
        assert srv.rooms[k] != h.peers;
      }
      assert x in srv.heap[srv.rooms[k]] && x != s;
    }
  }

  lemma CloseInv(srv: Server, s: Socket)
    requires Inv(srv) && Live(srv, s)
    ensures Inv(OnClose(srv, s))
  {
    var r := OnClose(srv, s);
    CloseEffect(srv, s);
    ClosedRefsBelow(srv, s, r);
    ClosedSocketsBelow(srv, s, r);
    ClosedHandlersAttached(srv, s, r);
    ClosedSetsNoDup(srv, s, r);
    ClosedRoomsNonEmpty(srv, s, r);
    ClosedRoomsDistinct(srv, s, r);
    ClosedCapturedIsCurrent(srv, s, r);
    ClosedMembersAreLive(srv, s, r);
  }

  lemma StepInv(srv: Server, e: Event)
    requires Inv(srv)
    ensures Inv(Step(srv, e))
  {
    match e
    case Upgrade(roomId) => UpgradeInv(srv, roomId);
    case Close(s) => if Live(srv, s) { CloseInv(srv, s); }
    case Message(_, _) =>
    case Error(_) =>
  }

  /** Every state reachable from startup satisfies the invariant. */
  lemma {:induction false} RunInv(events: seq<Event>)
    ensures Inv(Run(events))
    decreases |events|
  {
    if |events| == 0 {
      InitInv();
    } else {
      RunInv(events[..|events| - 1]);
      StepInv(Run(events[..|events| - 1]), events[|events| - 1]);
    }
  }
}
