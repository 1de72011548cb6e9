/** The room registry (main.ts:14, 28-30, 53-55), seen as a value: a map
    from room id to the room's members. A JavaScript `Set` iterates in
    insertion order, so a room's members are an insertion-ordered sequence
    without duplicates. */
module Registry {

  /** An opaque connection handle; two handles are the same peer exactly
      when they are equal (the source compares sockets by reference). */
  datatype Socket = Socket(id: nat)

  /** The members of one room, in the order they joined. */
  type Peers = seq<Socket>

  /** Room id to members. */
  type Rooms = map<string, Peers>

  /** Set semantics: no socket occurs twice. */
  predicate NoDup(peers: Peers)
  {
    forall i, j :: 0 <= i < j < |peers| ==> peers[i] != peers[j]
  }

  /** A registry in which every room present has at least one member and no
      room lists a member twice. */
  predicate WellFormed(rooms: Rooms)
  {
    forall roomId :: roomId in rooms ==> |rooms[roomId]| > 0 && NoDup(rooms[roomId])
  }

  /** The sockets listed in `peers`. */
  function Elems(peers: Peers): set<Socket>
  {
    set x | x in peers
  }

  /** The members of a room, as a set; an absent room has none. */
  function Members(rooms: Rooms, roomId: string): set<Socket>
  {
    if roomId in rooms then Elems(rooms[roomId]) else {}
  }

  /** Every room other than `roomId` is present in `after` exactly when it is
      present in `before`, with the same members in the same order. */
  ghost predicate OthersUnchanged(before: Rooms, after: Rooms, roomId: string)
  {
    forall k :: k != roomId ==>
      (k in before <==> k in after) && (k in before ==> before[k] == after[k])
  }

  /** `Set.prototype.add`: a new member goes to the end; an existing member
      leaves the set as it was. */
  function Add(peers: Peers, s: Socket): (r: Peers)
    ensures forall x :: x in r <==> x in peers || x == s
    ensures |peers| <= |r| <= |peers| + 1
    ensures r[..|peers|] == peers
    ensures s in peers ==> r == peers
    ensures NoDup(peers) ==> NoDup(r)
  {
    if s in peers then peers else peers + [s]
  }

  /** `Set.prototype.delete`: drops the socket and keeps the others in order. */
  function Remove(peers: Peers, s: Socket): (r: Peers)
    ensures forall x :: x in r <==> x in peers && x != s
    ensures |r| <= |peers|
    ensures s !in peers ==> |r| == |peers|
    ensures NoDup(peers) ==> NoDup(r)
    ensures NoDup(peers) && s in peers ==> |r| == |peers| - 1
  {
    if |peers| == 0 then []
    else
      var rest := Remove(peers[1..], s);
      NoDupSplit(peers);
      if peers[0] == s then rest
      else
        NoDupCons(peers[0], rest);
        [peers[0]] + rest
  }

  /** The tail of a duplicate-free sequence is duplicate-free and lacks the head. */
  lemma NoDupSplit(peers: Peers)
    requires |peers| > 0
    ensures NoDup(peers) ==> NoDup(peers[1..]) && peers[0] !in peers[1..]
  {
  }

  /** Putting a fresh socket in front keeps a sequence duplicate-free. */
  lemma NoDupCons(x: Socket, rest: Peers)
    ensures NoDup(rest) && x !in rest ==> NoDup([x] + rest)
  {
    if NoDup(rest) && x !in rest {
      var s := [x] + rest;
      forall i, j | 0 <= i < j < |s|
        ensures s[i] != s[j]
      {
        assert s[j] == rest[j - 1];
        if i > 0 {
          assert s[i] == rest[i - 1];
        }
      }
    }
  }

  /** Removing a socket that is not a member changes nothing. */
  lemma {:induction false} RemoveAbsent(peers: Peers, s: Socket)
    requires s !in peers
    ensures Remove(peers, s) == peers
  {
    if |peers| > 0 {
      assert peers[0] != s;
      RemoveAbsent(peers[1..], s);
      assert peers == [peers[0]] + peers[1..];
    }
  }

  /** In a duplicate-free set, deleting the member at position `i` keeps
      every other member in its order. */
  lemma {:induction false} RemoveKeepsOrder(peers: Peers, s: Socket, i: nat)
    requires NoDup(peers) && i < |peers| && peers[i] == s
    ensures Remove(peers, s) == peers[..i] + peers[i + 1..]
  {
    NoDupSplit(peers);
    var tail := peers[1..];
    if i == 0 {
      RemoveAbsent(tail, s);
    } else {
      RemoveKeepsOrder(tail, s, i - 1);
      assert tail[..i - 1] + tail[i..] == peers[1..i] + peers[i + 1..];
      assert peers[..i] == [peers[0]] + peers[1..i];
    }
  }

  /** What a deletion leaves, for any set: the set itself when the socket is
      absent, and in a duplicate-free set the members on either side of it. */
  lemma RemoveShape(peers: Peers, s: Socket)
    ensures s !in peers ==> Remove(peers, s) == peers
    ensures NoDup(peers) ==>
      forall i :: 0 <= i < |peers| && peers[i] == s ==> Remove(peers, s) == peers[..i] + peers[i + 1..]
  {
    if s !in peers {
      RemoveAbsent(peers, s);
    }
    if NoDup(peers) {
      forall i | 0 <= i < |peers| && peers[i] == s
        ensures Remove(peers, s) == peers[..i] + peers[i + 1..]
      {
        RemoveKeepsOrder(peers, s, i);
      }
    }
  }

  /** Removing what was just added to a set that lacked it restores the set. */
  lemma {:induction false} RemoveAdded(peers: Peers, s: Socket)
    requires s !in peers
    ensures Remove(Add(peers, s), s) == peers
  {
    assert Add(peers, s) == peers + [s];
    RemoveAppended(peers, s);
  }

  lemma {:induction false} RemoveAppended(peers: Peers, s: Socket)
    requires s !in peers
    ensures Remove(peers + [s], s) == peers
  {
    if |peers| == 0 {
      assert peers + [s] == [s];
      assert [s][1..] == [];
    } else {
      var tail := peers[1..];
      assert (peers + [s])[1..] == tail + [s];
      assert Remove(tail + [s], s) == tail by { RemoveAppended(tail, s); }
      assert Remove(peers + [s], s) == [peers[0]] + Remove(tail + [s], s);
      assert peers == [peers[0]] + tail;
    }
  }

  /** A sequence is empty exactly when it has no member. */
  lemma EmptyIffNoMembers(peers: Peers)
    ensures |peers| == 0 <==> Elems(peers) == {}
  {
    if |peers| > 0 {
      assert peers[0] in Elems(peers);
    }
  }

  /** join (main.ts:28-30): create the room's set when the key is absent,
      then add the socket to it. */
  function Join(rooms: Rooms, roomId: string, s: Socket): (r: Rooms)
    ensures roomId in r && s in r[roomId]
    ensures Members(r, roomId) == Members(rooms, roomId) + {s}
    ensures roomId in rooms ==>
      |rooms[roomId]| <= |r[roomId]| <= |rooms[roomId]| + 1 && r[roomId][..|rooms[roomId]|] == rooms[roomId]
    ensures roomId in rooms && s in rooms[roomId] ==> r[roomId] == rooms[roomId]
    ensures roomId !in rooms ==> r[roomId] == [s]
    ensures OthersUnchanged(rooms, r, roomId)
    ensures WellFormed(rooms) ==> WellFormed(r)
  {
    var peers := if roomId in rooms then rooms[roomId] else [];
    rooms[roomId := Add(peers, s)]
  }

  /** leave (main.ts:53-55): remove the socket, then delete the room's key
      once its set is empty. Leaving a room that is absent changes nothing. */
  function Leave(rooms: Rooms, roomId: string, s: Socket): (r: Rooms)
    ensures Members(r, roomId) == Members(rooms, roomId) - {s}
    ensures roomId in r <==> Members(rooms, roomId) - {s} != {}
    ensures OthersUnchanged(rooms, r, roomId)
    ensures WellFormed(rooms) ==> WellFormed(r)
    ensures WellFormed(rooms) && s in Members(rooms, roomId) && roomId in r ==>
      |r[roomId]| == |rooms[roomId]| - 1
    ensures WellFormed(rooms) && roomId in rooms && roomId in r ==>
      forall i :: 0 <= i < |rooms[roomId]| && rooms[roomId][i] == s ==>
        r[roomId] == rooms[roomId][..i] + rooms[roomId][i + 1..]
    ensures WellFormed(rooms) && s !in Members(rooms, roomId) ==> r == rooms
  {
    if roomId !in rooms then rooms
    else
      var remaining := Remove(rooms[roomId], s);
      EmptyIffNoMembers(remaining);
      RemoveShape(rooms[roomId], s);
      if |remaining| == 0 then rooms - {roomId} else rooms[roomId := remaining]
  }

  /** Joining twice is joining once: the set and its size do not change. */
  lemma JoinIdempotent(rooms: Rooms, roomId: string, s: Socket)
    ensures Join(Join(rooms, roomId, s), roomId, s) == Join(rooms, roomId, s)
    ensures |Join(Join(rooms, roomId, s), roomId, s)[roomId]| == |Join(rooms, roomId, s)[roomId]|
  {
  }

  /** Leaving twice is leaving once (close followed by a second close). */
  lemma LeaveIdempotent(rooms: Rooms, roomId: string, s: Socket)
    ensures Leave(Leave(rooms, roomId, s), roomId, s) == Leave(rooms, roomId, s)
  {
    var once := Leave(rooms, roomId, s);
    if roomId in once {
      assert s !in once[roomId];
      RemoveAbsent(once[roomId], s);
    }
  }

  /** Leave undoes Join: a socket that joins a room it was not in and then
      leaves it restores the registry, including deleting a room it created. */
  lemma JoinThenLeave(rooms: Rooms, roomId: string, s: Socket)
    requires WellFormed(rooms)
    requires s !in Members(rooms, roomId)
    ensures Leave(Join(rooms, roomId, s), roomId, s) == rooms
  {
    var before := if roomId in rooms then rooms[roomId] else [];
    var joined := rooms[roomId := Add(before, s)];
    assert Join(rooms, roomId, s) == joined;
    LeaveEntry(joined, roomId, s);
    assert s !in before;
    AddThenRemoveEntry(rooms, roomId, s, before);
  }

  /** The map-level content of `JoinThenLeave`, stated over `Add` and `Remove`
      for the room's current entry `before`. */
  lemma AddThenRemoveEntry(rooms: Rooms, roomId: string, s: Socket, before: Peers)
    requires before == if roomId in rooms then rooms[roomId] else []
    requires roomId in rooms ==> |before| > 0
    requires s !in before
    ensures var joined := rooms[roomId := Add(before, s)];
      var remaining := Remove(joined[roomId], s);
      rooms == if |remaining| == 0 then joined - {roomId} else joined[roomId := remaining]
  {
    var joined := rooms[roomId := Add(before, s)];
    assert Remove(joined[roomId], s) == before by {
      assert joined[roomId] == Add(before, s);
      RemoveAdded(before, s);
    }
    if roomId in rooms {
      assert joined[roomId := before] == rooms;
    } else {
      UpdateThenDelete(rooms, roomId, Add(before, s));
    }
  }

  /** Adding a fresh key and deleting it again gives the map back. */
  lemma UpdateThenDelete<V>(m: map<string, V>, k: string, v: V)
    requires k !in m
    ensures m[k := v] - {k} == m
  {
  }

  /** Leave on a present room, as an equation over `Remove`. */
  lemma LeaveEntry(rooms: Rooms, roomId: string, s: Socket)
    requires roomId in rooms
    ensures var remaining := Remove(rooms[roomId], s);
      Leave(rooms, roomId, s) == if |remaining| == 0 then rooms - {roomId} else rooms[roomId := remaining]
  {
  }
}
