/** Histories in one room with peers A, B and C (the sockets of the first
    three upgrades), for any room id. */
module Scenarios {
  import opened Wrappers
  import opened Signal
  import opened Registry
  import opened Broadcast
  import opened Relay

  const A := Socket(0)
  const B := Socket(1)
  const C := Socket(2)

  /** The set created by the first upgrade. */
  const First := SetRef(0)

  /** A, B and C join `roomId`. */
  function Joined(roomId: string): seq<Event>
  {
    [Upgrade(roomId), Upgrade(roomId), Upgrade(roomId)]
  }

  /** Then B leaves. */
  function BLeft(roomId: string): seq<Event>
  {
    Joined(roomId) + [Close(B)]
  }

  /** Then C and A leave. */
  function AllLeft(roomId: string): seq<Event>
  {
    BLeft(roomId) + [Close(C), Close(A)]
  }

  /** The handlers of the first one, two and three upgrades into `roomId`. */
  function Handlers(roomId: string, n: nat): map<Socket, Handler>
    requires n <= 3
  {
    var h := Handler(roomId, First);
    if n == 0 then map[]
    else if n == 1 then map[A := h]
    else if n == 2 then map[A := h, B := h]
    else map[A := h, B := h, C := h]
  }

  /** The state with `members` in `roomId`, the first `n` sockets upgraded
      into it, and `closed` among them closed. */
  function RoomState(roomId: string, members: Peers, n: nat, closed: set<Socket>): Server
    requires n <= 3
  {
    Server(map[roomId := First], map[First := members], Handlers(roomId, n), closed, 1, n)
  }

  lemma FirstUpgrade(roomId: string)
    ensures Step(Init(), Upgrade(roomId)) == RoomState(roomId, [A], 1, {})
  {
  }

  lemma SecondUpgrade(roomId: string)
    ensures Step(RoomState(roomId, [A], 1, {}), Upgrade(roomId)) == RoomState(roomId, [A, B], 2, {})
  {
    assert Add([A], B) == [A, B];
  }

  lemma ThirdUpgrade(roomId: string)
    ensures Step(RoomState(roomId, [A, B], 2, {}), Upgrade(roomId)) == RoomState(roomId, [A, B, C], 3, {})
  {
    assert Add([A, B], C) == [A, B, C];
  }

  /** After one, two and three upgrades: one set, holding the peers in
      the order they joined. */
  lemma OneJoined(roomId: string)
    ensures Run([Upgrade(roomId)]) == RoomState(roomId, [A], 1, {})
  {
    RunSnoc([], Upgrade(roomId));
    assert [] + [Upgrade(roomId)] == [Upgrade(roomId)];
    FirstUpgrade(roomId);
  }

  lemma TwoJoined(roomId: string)
    ensures Run([Upgrade(roomId), Upgrade(roomId)]) == RoomState(roomId, [A, B], 2, {})
  {
    SecondStep(roomId);
    OneJoined(roomId);
    SecondUpgrade(roomId);
  }

  lemma JoinedState(roomId: string)
    ensures Run(Joined(roomId)) == RoomState(roomId, [A, B, C], 3, {})
  {
    ThirdStep(roomId);
    TwoJoined(roomId);
    ThirdUpgrade(roomId);
  }

  /** The second and third upgrades, each as one more step. */
  lemma SecondStep(roomId: string)
    ensures Run([Upgrade(roomId), Upgrade(roomId)]) == Step(Run([Upgrade(roomId)]), Upgrade(roomId))
  {
    var u := Upgrade(roomId);
    RunSnoc([u], u);
    assert [u] + [u] == [u, u];
  }

  lemma ThirdStep(roomId: string)
    ensures Run(Joined(roomId)) == Step(Run([Upgrade(roomId), Upgrade(roomId)]), Upgrade(roomId))
  {
    var u := Upgrade(roomId);
    RunSnoc([u, u], u);
    assert [u, u] + [u] == Joined(roomId);
  }

  /** Every socket reports OPEN. */
  predicate AllOpen(x: Socket)
  {
    true
  }

  /** The fan-out from A over [A, B, C] and over [A, C] with every socket open. */
  lemma FanOutFromA(f: string)
    ensures Deliveries([A, B, C], A, AllOpen, f) == [Send(B, f), Send(C, f)]
    ensures Deliveries([A, C], A, AllOpen, f) == [Send(C, f)]
  {
    assert [A, B, C][..2] == [A, B];
    assert [A, B][..1] == [A];
    assert [A, C][..1] == [A];
    assert [A][..0] == [];
    assert Deliveries([], A, AllOpen, f) == [];
    assert Deliveries([A], A, AllOpen, f) == [];
    assert Deliveries([A, B], A, AllOpen, f) == [Send(B, f)];
  }

  /** A sends an offer: B and C each receive its re-serialisation once, in
      joining order, A receives nothing, and the offer is published. */
  lemma OfferReachesOthers(roomId: string, parse: string -> Option<SignalMessage<string>>,
                           serialise: SignalMessage<string> -> string, frame: string)
    requires parse(frame) == Some(SignalMessage(Offer, Some("sdp1"), Some("A"), None))
    ensures var msg := SignalMessage(Offer, Some("sdp1"), Some("A"), None);
      var srv := Run(Joined(roomId));
      && A in srv.handlers
      && OnMessage(srv, A, frame, parse, serialise, AllOpen)
           == Relayed([Send(B, serialise(msg)), Send(C, serialise(msg))], Publication(roomId, msg))
  {
    JoinedState(roomId);
    var msg := SignalMessage(Offer, Some("sdp1"), Some("A"), None);
    FanOutFromA(serialise(msg));
    var srv := RoomState(roomId, [A, B, C], 3, {});
    assert srv.handlers[A] == Handler(roomId, First);
    assert Deref(srv.heap, First) == [A, B, C];
  }

  /** The set deletions of the three closes. */
  lemma Removals()
    ensures Remove([A, B, C], B) == [A, C]
    ensures Remove([A, C], C) == [A]
    ensures Remove([A], A) == []
  {
    assert [A, B, C][1..] == [B, C];
    assert [B, C][1..] == [C];
    assert [A, C][1..] == [C];
    assert [C][1..] == [];
    assert [A][1..] == [];
    assert Remove([], B) == [] && Remove([], C) == [] && Remove([], A) == [];
    assert Remove([C], B) == [C];
    assert Remove([C], C) == [];
  }

  /** B's, then C's, then A's close handler. */
  lemma CloseB(roomId: string)
    ensures Step(RoomState(roomId, [A, B, C], 3, {}), Close(B)) == RoomState(roomId, [A, C], 3, {B})
  {
    Removals();
    var before := RoomState(roomId, [A, B, C], 3, {});
    assert Live(before, B);
    assert Deref(before.heap, First) == [A, B, C];
  }

  lemma CloseC(roomId: string)
    ensures Step(RoomState(roomId, [A, C], 3, {B}), Close(C)) == RoomState(roomId, [A], 3, {B, C})
  {
    Removals();
    var before := RoomState(roomId, [A, C], 3, {B});
    assert Live(before, C);
    assert Deref(before.heap, First) == [A, C];
  }

  lemma CloseA(roomId: string)
    ensures roomId !in Step(RoomState(roomId, [A], 3, {B, C}), Close(A)).rooms
  {
    Removals();
    var before := RoomState(roomId, [A], 3, {B, C});
    assert Live(before, A);
    assert Deref(before.heap, First) == [A];
  }

  /** After B's close: A and C remain, in that order. */
  lemma BLeftState(roomId: string)
    ensures Run(BLeft(roomId)) == RoomState(roomId, [A, C], 3, {B})
  {
    assert Run(BLeft(roomId)) == Step(Run(Joined(roomId)), Close(B)) by { RunSnoc(Joined(roomId), Close(B)); }
    JoinedState(roomId);
    CloseB(roomId);
  }

  /** After every peer has left the room is gone. */
  lemma AllLeftState(roomId: string)
    ensures roomId !in Run(AllLeft(roomId)).rooms
  {
    var four := BLeft(roomId);
    var five := four + [Close(C)];
    assert AllLeft(roomId) == five + [Close(A)];
    assert Run(four) == RoomState(roomId, [A, C], 3, {B}) by { BLeftState(roomId); }
    assert Run(five) == RoomState(roomId, [A], 3, {B, C}) by {
      RunSnoc(four, Close(C));
      CloseC(roomId);
    }
    assert Run(five + [Close(A)]) == Step(Run(five), Close(A)) by { RunSnoc(five, Close(A)); }
    CloseA(roomId);
  }

  /** B disconnects: A's next message reaches only C and the room remains;
      once C and A have also left, the room is gone. */
  lemma DisconnectThenBroadcast(roomId: string, parse: string -> Option<SignalMessage<string>>,
                                serialise: SignalMessage<string> -> string, frame: string)
    requires parse(frame).Some?
    ensures var srv := Run(BLeft(roomId));
      && roomId in srv.rooms
      && A in srv.handlers
      && OnMessage(srv, A, frame, parse, serialise, AllOpen).sends
           == [Send(C, serialise(parse(frame).value))]
    ensures roomId !in Run(AllLeft(roomId)).rooms
  {
    BLeftState(roomId);
    FanOutFromA(serialise(parse(frame).value));
    var srv := RoomState(roomId, [A, C], 3, {B});
    assert srv.handlers[A] == Handler(roomId, First);
    assert Deref(srv.heap, First) == [A, C];
    AllLeftState(roomId);
  }
}
