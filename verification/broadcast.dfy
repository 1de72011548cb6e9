/** The fan-out loop of the message handler (main.ts:41-45): every member of
    the room other than the sender whose socket is OPEN is sent the frame,
    once, in the room's iteration order. */
module Broadcast {
  import opened Registry

  /** One `peer.send(frame)` call. */
  datatype Send = Send(to: Socket, frame: string)

  /** Whether the loop sends to `x`: `x` is a member, is not the sender, and
      `isOpen(x)` (standing for `readyState === WebSocket.OPEN`) holds. */
  predicate Receives(peers: Peers, sender: Socket, isOpen: Socket -> bool, x: Socket)
  {
    x in peers && x != sender && isOpen(x)
  }

  /** The sends the loop performs over `peers`, as a reference definition
      built member by member from the front of the iteration order. */
  function Deliveries(peers: Peers, sender: Socket, isOpen: Socket -> bool, frame: string): (r: seq<Send>)
    ensures |r| <= |peers|
    ensures forall i :: 0 <= i < |r| ==> r[i].frame == frame && Receives(peers, sender, isOpen, r[i].to)
    decreases |peers|
  {
    if |peers| == 0 then []
    else
      var init := peers[..|peers| - 1];
      var last := peers[|peers| - 1];
      assert forall x :: x in init ==> x in peers;
      Deliveries(init, sender, isOpen, frame)
        + (if last != sender && isOpen(last) then [Send(last, frame)] else [])
  }

  /** Exactly once: over a duplicate-free room, each receiving member gets
      one send of the frame and every other socket gets none. */
  lemma {:induction false} DeliveriesExactlyOnce(peers: Peers, sender: Socket, isOpen: Socket -> bool, frame: string, x: Socket)
    requires NoDup(peers)
    ensures multiset(Deliveries(peers, sender, isOpen, frame))[Send(x, frame)]
      == if Receives(peers, sender, isOpen, x) then 1 else 0
    decreases |peers|
  {
    if |peers| > 0 {
      var init := peers[..|peers| - 1];
      var last := peers[|peers| - 1];
      assert peers == init + [last];
      assert NoDup(init);
      DeliveriesExactlyOnce(init, sender, isOpen, frame, x);
      assert last !in init;
      assert x in peers <==> x in init || x == last;
    }
  }

  /** A sender alone in its room (or with only closed room-mates) sends
      nothing. */
  lemma {:induction false} NoOtherOpenMemberNoSends(peers: Peers, sender: Socket, isOpen: Socket -> bool, frame: string)
    requires forall x :: x in peers && x != sender ==> !isOpen(x)
    ensures Deliveries(peers, sender, isOpen, frame) == []
    decreases |peers|
  {
    if |peers| > 0 {
      NoOtherOpenMemberNoSends(peers[..|peers| - 1], sender, isOpen, frame);
    }
  }

  /** The loop of main.ts:41-45, written as the source writes it. */
  method FanOut(peers: Peers, sender: Socket, isOpen: Socket -> bool, frame: string) returns (sends: seq<Send>)
    ensures sends == Deliveries(peers, sender, isOpen, frame)
    ensures NoDup(peers) ==>
      forall x :: multiset(sends)[Send(x, frame)] == if Receives(peers, sender, isOpen, x) then 1 else 0
  {
    sends := [];
    var i := 0;
    while i < |peers|
      invariant 0 <= i <= |peers|
      invariant sends == Deliveries(peers[..i], sender, isOpen, frame)
    {
      var peer := peers[i];
      if peer != sender && isOpen(peer) {
        sends := sends + [Send(peer, frame)];
      }
      assert peers[..i + 1][..i] == peers[..i];
      i := i + 1;
    }
    assert peers[..|peers|] == peers;
    if NoDup(peers) {
      forall x
        ensures multiset(sends)[Send(x, frame)] == if Receives(peers, sender, isOpen, x) then 1 else 0
      {
        DeliveriesExactlyOnce(peers, sender, isOpen, frame, x);
      }
    }
  }
}
