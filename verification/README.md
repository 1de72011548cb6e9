# WebRTC signaling relay — a Dafny model of its room registry and fan-out

The relay (`main.ts`) accepts WebSocket connections on `/:room`. It keeps an in-memory map from room id to the set of sockets in that room. When a peer's text frame parses as JSON, the relay re-serialises the parsed value and sends it to the other open peers of the same room. It then posts the room id together with the parsed value to a cross-instance `BroadcastChannel`. Peers use it to exchange SDP offers and answers and ICE candidates before they talk directly.

The model covers the core of that file:

- **`Signal`** (`signal.dfy`): the `SignalMessage` envelope (main.ts:3-8). It has the four `type` literals and the optional `data`, `from` and `to` fields.
- **`Registry`** (`registry.dfy`): the room registry as a value. A room is an insertion-ordered, duplicate-free sequence of sockets; JavaScript `Set` iteration follows insertion order. The module provides:
  - `Join`: create the set when the key is absent, then add the socket (main.ts:28-30);
  - `Leave`: delete the socket, then delete the key once the set is empty (main.ts:53-55);
  - the laws these obey.
- **`Broadcast`** (`broadcast.dfy`): the fan-out loop (main.ts:41-45). `Deliveries` is a reference definition and `FanOut` is the loop as written. Each sends the frame once to every member that is not the sender and whose socket reports OPEN.
- **`Relay`** (`relay.dfy`): the handlers as written. The map holds references to mutable sets. A socket's handlers capture its room id and the set reference they obtained at upgrade. Later they read and mutate that set through the reference, never through the map. A `Server` state holds:
  - the map;
  - a heap of set objects;
  - each socket's captured variables;
  - the sockets whose close event has fired.

  `Run` replays any history of upgrade, message, close and error events. `RunInv` proves an invariant of every reachable state: the set a live socket captured is still its room's entry; no room is empty; every member is live and was upgraded into that room; and no set lists a socket twice.
- **`Properties`** (`properties.dfy`): the refinement and the behavioural promises. It proves three refinements over the represented registry `View`:
  - each upgrade acts as `Registry.Join`;
  - each close acts as `Registry.Leave`;
  - each message acts as `Broadcast.Deliveries` over the room's current members.

  It then proves, for every reachable state:
  - exactly-once delivery to the room minus the sender;
  - the sole-member case;
  - the drop of an unparsable frame;
  - that the error handler does not leave.
- **`Scenarios`** (`scenarios.dfy`): three peers in one room, for any room id. An offer from the first reaches the other two in joining order. After one peer disconnects, only the remaining one is reached. The room disappears when the last peer leaves.

Outside dependencies are parameters:

- **JSON:** `JSON.parse` and `JSON.stringify` are the functions `parse: string -> Option<V>` and `serialise: V -> string`. `None` stands for the `SyntaxError` the `try` block catches.
- **Socket state:** `readyState === WebSocket.OPEN` is `isOpen: Socket -> bool`.
- **Cross-instance post:** `bc.postMessage` is recorded as the `Publication` a relayed frame produces.

Behaviour of `main.ts` worth noting, and how the model treats it:

- **Only a JSON syntax error drops a frame.** The `SignalMessage` annotation on the parse result (main.ts:39) is erased at run time. So a text frame holding any JSON value, of whatever shape, is re-serialised and forwarded. The model therefore assumes nothing about the envelope's shape in `OnMessage`, and `parse` is arbitrary. A binary frame is a different case: `JSON.parse` turns a `Blob` or `ArrayBuffer` into the string `"[object Blob]"` or `"[object ArrayBuffer]"`, which is not JSON, so every binary frame is dropped. The model's frames are text frames only (see "Left out").
- **The error handler only logs** (main.ts:59). It does not leave the room; removal happens only in the close handler. `Properties.ErrorDoesNotLeave` states this.
- **The raw close handler is not idempotent.** `Registry.Leave` is idempotent (`Registry.LeaveIdempotent`). The close handler as written (main.ts:53-55) is not: it tests the size of the set it captured but deletes the key by room id. Run a second time after the room was re-created by a new peer, it would delete the new, non-empty room (`Properties.SecondCloseDeletesLiveRoom`). The WebSocket runtime fires a socket's close event at most once, so `Relay.Step` delivers close only to a live socket, and the invariant relies on that.

## Model

| member | source | states |
|---|---|---|
| Signal.ParseTypeTag | main.ts:4 | a string is read back as message type `t` exactly when it is `t`'s wire literal; any other string is no message type |
| Registry.Add | main.ts:30 | after `Set.add` the members are the old members plus the socket; earlier members keep their order and the new socket comes last; adding a present socket changes nothing; no duplicate is ever introduced |
| Registry.Remove | main.ts:54 | after `Set.delete` the members are the old members minus the socket; in a duplicate-free set the size drops by exactly one when the socket was present; it is unchanged when the socket was absent; duplicate-freedom is kept |
| Registry.RemoveKeepsOrder | main.ts:54 | in a duplicate-free set, deleting the member at position `i` leaves exactly the members before it followed by the members after it, so iteration order is kept |
| Registry.RemoveAdded | main.ts:53-54 | deleting a socket that was just added to a set not containing it gives the original set back |
| Registry.Join | main.ts:28-30 | after a join the room exists and its members are the old members plus the socket, in the old order with the new socket last, for any registry; a socket already present leaves the room unchanged; an absent room is created holding just the socket; every other room is untouched; a registry with no empty room and no duplicates stays so |
| Registry.Leave | main.ts:53-55 | after a leave the room's members are the old members minus the socket; the room's key is present exactly when some other member remains, so an emptied room is deleted; every other room is untouched; well-formedness is kept; in a well-formed registry a member's leave that keeps the room shrinks it by exactly one and keeps the other members in order, and leaving a room one is not in changes nothing |
| Registry.JoinIdempotent | main.ts:28-30 | joining twice with the same socket is the same as joining once; the room's size is unchanged by the second join |
| Registry.LeaveIdempotent | main.ts:53-55 | leaving twice is the same as leaving once: the second leave is a no-op |
| Registry.JoinThenLeave | main.ts:28-55 | in a well-formed registry, a socket not yet in the room that joins and then leaves restores the registry exactly, including deleting a room it created |
| Broadcast.Deliveries | main.ts:41-45 | the loop makes at most as many sends as the room has members; each send carries the frame to a member other than the sender whose socket is OPEN (the per-member count is `Broadcast.DeliveriesExactlyOnce`) |
| Broadcast.DeliveriesExactlyOnce | main.ts:41-45 | over a room without duplicates, each socket receives the frame exactly once if it is a member, not the sender and OPEN, and zero times otherwise |
| Broadcast.NoOtherOpenMemberNoSends | main.ts:41-45 | when no member other than the sender is OPEN (in particular a sole member) the loop sends nothing |
| Broadcast.FanOut | main.ts:41-45 | iterating the room's set sends to every other OPEN member once, in iteration order, and to no one else |
| Relay.OnUpgrade | main.ts:28-30 | the room's key exists afterwards, and an existing room keeps the same set object; the new socket is in that set and its handlers capture the room id and that set; a new room's set holds just the new socket; an existing room's set gains exactly the new socket, keeps its members in order and stays duplicate-free; a new room's set is a fresh object, not any existing set (when every existing set was allocated below the next identity, as in every reachable state); no other key, no other set object, no other socket's handlers and no socket's close state change |
| Relay.OnClose | main.ts:53-55 | the socket is deleted from the set it captured, whose other members stay in order, and is no longer live; a duplicate-free set stays so; no other set object changes and no other socket's close state changes; if that set is now empty the room id's key is deleted, otherwise the map is unchanged |
| Relay.OnMessage | main.ts:37-50 | a frame is dropped exactly when it fails to parse; otherwise the parsed value is published under the sender's room id, and every send carries its re-serialisation and goes to an OPEN socket other than the sender |
| Relay.UpgradeInv | main.ts:28-30 | an upgrade preserves the reachable-state invariant |
| Relay.CloseInv | main.ts:53-55 | the close handler of a live socket preserves the reachable-state invariant |
| Relay.RunInv | main.ts:14-59 | in every state reachable from startup, each live socket's captured set is still its room's entry and contains it; no room is empty; every room member is live and belongs to that room; no set lists a socket twice; distinct rooms have distinct sets |
| Properties.CapturedSetIsCurrentEntry | main.ts:29-54 | in every reachable state, the set a live socket's handlers captured is the current map entry for its room and contains the socket |
| Properties.NoEmptyRooms | main.ts:55 | in every reachable state, every room in the registry has at least one member and no duplicate |
| Properties.MembersAreJoinedNotLeft | main.ts:28-55 | a socket is a member of a room exactly when it was upgraded into that room and its close has not fired, so a socket is in at most one room |
| Properties.UpgradeIsJoin | main.ts:28-30 | the upgrade branch changes the represented registry exactly as `Registry.Join` of the new socket into its room |
| Properties.CloseIsLeave | main.ts:53-55 | the close handler of a live socket changes the represented registry exactly as `Registry.Leave` from its room |
| Properties.StepRefines | main.ts:23-59 | each event moves the represented registry as join, leave or nothing: messages and errors never change it |
| Properties.MessageRefinesBroadcast | main.ts:37-50 | the message handler, reading the captured set, equals the reference fan-out over the room's current registry entry followed by one publication, or a drop |
| Properties.BroadcastReachesRoomMinusSender | main.ts:41-45 | in every reachable state a parsed frame is re-serialised and sent exactly once to each live socket of the sender's room other than the sender whose socket is OPEN, and never to anyone else |
| Properties.SoleMemberSendsNothing | main.ts:41-45 | a sender alone in its room causes no sends, and the registry is unchanged by its message |
| Properties.MalformedFrameIsDropped | main.ts:38-50 | a frame that fails to parse produces no send and no publication; the state is unchanged, and the sender stays connected and in its room |
| Properties.ErrorDoesNotLeave | main.ts:59 | the error handler changes nothing: the socket stays live and a member of its room |
| Properties.SecondCloseDeletesLiveRoom | main.ts:53-55 | running the close handler a second time, after its room emptied and was re-created by another peer, deletes the new room's key while that peer is still live |
| Scenarios.OfferReachesOthers | main.ts:37-47 | with A, B and C joined, an offer from A is delivered to B and then C as its re-serialisation, not to A, and published under the room id |
| Scenarios.DisconnectThenBroadcast | main.ts:41-55 | after B disconnects, A's next frame reaches only C and the room still exists; once C and A also leave, the room is gone |

## Left out

- HTTP routing and the upgrade handshake (main.ts:1, 10-11, 23-26, 61-69) are outside the model, including the 426 response to a non-upgrade request. An `Upgrade(roomId)` event stands for a successful upgrade with the path parameter `roomId`. Each upgrade yields a fresh socket. The model assumes the `socket` destructured from the upgrade result at main.ts:26 is the upgraded WebSocket, that is, that the upgrade returns a `{ socket, response }` pair; an upgrade returning the bare WebSocket would leave `socket` undefined and fail at main.ts:32 before any handler is attached, which is not modelled.
- The `BroadcastChannel` (main.ts:17, 19-21) is outside the model. Its incoming handler is empty in the source. The outgoing `postMessage` (main.ts:47) is recorded as the outcome's `Publication` and is not delivered anywhere.
- JSON parsing and serialisation are outside the model. They are the parameters `parse` and `serialise`, and the model claims nothing about the JSON grammar.
- The WebSocket `readyState` state machine is not modelled. Each fan-out receives a snapshot predicate `isOpen`. A `send` to an OPEN socket is assumed not to throw. The model does not cover a `send` that throws mid-loop, which would skip the remaining members and the publication.
- Binary frames are not modelled. A `Message` event carries text only. A binary frame reaches main.ts:39 as a `Blob` or `ArrayBuffer`, which `JSON.parse` rejects whatever its bytes, so it is always dropped, exactly like an unparsable text frame.
- Logging is not modelled: `onopen` (main.ts:32-35) and the `console` calls at main.ts:49, 56, 59 and 71.
- Binding the port (main.ts:72) is not modelled.
- Concurrency is modelled only as interleaving. Deno runs the handlers one at a time on one event loop, so a history is a sequence of events, each handled to completion.
- Relay.Step: a close event for a socket that is not live, meaning never upgraded or already closed, is not delivered. This follows the runtime's at-most-once close; the raw handler run twice is covered by `Properties.SecondCloseDeletesLiveRoom`.
- Relay.OnMessage: its contract does not state exactly-once delivery by itself. That is stated over reachable states by `Properties.BroadcastReachesRoomMinusSender`, because it needs the invariant that the captured set is duplicate-free.
- Signal.ParseTypeTag: the relay never inspects the envelope. The envelope and its tag reading record the documented shape only; `OnMessage` forwards any parsed value.
