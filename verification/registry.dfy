/**
 * The process-wide state of server.js: the `rooms` map from room id to room,
 * the `currentRoom` each open connection remembers, and the deferred resets
 * scheduled after wins. The message and close handlers are methods; what
 * they send is returned rather than written to sockets.
 */
module Registry {
  import opened Board
  import opened Rules
  import opened Rooms

  type RoomId = string

  /** Answer to "join": `init` with the assigned mark, or `error` "Room is full" followed by closing the connection. */
  datatype JoinReply = Init(mark: Mark) | RoomFull

  /** A "move" broadcast and the connections it goes to. */
  datatype Broadcast = Broadcast(to: seq<ConnId>, event: MoveEvent)

  /**
   * Outcome of "reset": nothing when the connection has no room id (or an
   * empty one); a fault when the id names a deleted room, where the handler
   * dereferences a missing room; otherwise the reset broadcast.
   */
  datatype ResetReply = NotInRoom | MissingRoom | ResetSent(event: ResetEvent)

  /** `players.filter(p => p.socket !== socket)`. */
  function Without(players: seq<Player>, conn: ConnId): (r: seq<Player>)
    ensures forall p :: p in r <==> p in players && p.conn != conn
    ensures |r| <= |players|
    ensures (forall p :: p in players ==> p.conn != conn) ==> r == players
    ensures forall p :: multiset(r)[p] == if p.conn == conn then 0 else multiset(players)[p]
  {
    if players == [] then []
    else
      assert players == [players[0]] + players[1..];
      if players[0].conn == conn then Without(players[1..], conn)
      else [players[0]] + Without(players[1..], conn)
  }

  /** Filtering keeps order: the filter of a concatenation is the concatenation of the filters. */
  lemma {:induction false} WithoutAppend(front: seq<Player>, back: seq<Player>, conn: ConnId)
    ensures Without(front + back, conn) == Without(front, conn) + Without(back, conn)
    decreases |front|
  {
    if front == [] {
      assert front + back == back;
    } else {
      assert (front + back)[0] == front[0] && (front + back)[1..] == front[1..] + back;
      WithoutAppend(front[1..], back, conn);
    }
  }

  class Server {
    var rooms: map<RoomId, Room>
    /** Each open connection's `currentRoom`; absent while it is still null. */
    var current: map<ConnId, RoomId>
    /** Rooms whose deferred reset is scheduled, in the order the timers fire (all share the same delay). */
    var pending: seq<Room>

    /** The object the handlers for connection `conn` may change: its room. */
    ghost function Frame(conn: ConnId): set<object>
      reads this, rooms.Values
    {
      if conn in current && current[conn] in rooms then {rooms[current[conn]]} else {}
    }

    /**
     * Every registered room is well shaped, has at most two players, and was
     * created for the id it is registered under (so distinct ids name distinct rooms).
     */
    ghost predicate Valid()
      reads this, rooms.Values
    {
      forall id :: id in rooms ==> rooms[id].Valid() && |rooms[id].players| <= 2 && rooms[id].id == id
    }

    /** `if (data.type === ... && currentRoom)`: a room id is set and, being a string, not empty. */
    predicate Active(conn: ConnId)
      reads this
    {
      conn in current && current[conn] != ""
    }

    constructor ()
      ensures Valid() && rooms == map[] && current == map[] && pending == []
    {
      rooms := map[];
      current := map[];
      pending := [];
    }

    /**
     * "join": remember the room id (before the full check), create the room
     * if the id is unseen, refuse a third player, otherwise assign X to the
     * first and O to any later player and append the joiner.
     */
    method Join(conn: ConnId, roomId: RoomId) returns (reply: JoinReply)
      requires Valid()
      modifies this, if roomId in rooms then {rooms[roomId]} else {}
      ensures Valid() && pending == old(pending)
      ensures current == old(current)[conn := roomId]
      ensures rooms.Keys == old(rooms.Keys) + {roomId}
      ensures forall id :: id in old(rooms) ==> rooms[id] == old(rooms[id])
      ensures forall id :: id in rooms && id != roomId ==> unchanged(rooms[id])
      ensures roomId !in old(rooms) ==> fresh(rooms[roomId]) && rooms[roomId].Snapshot() == EmptyGame(ZERO)
      ensures roomId in old(rooms) ==> rooms[roomId].Snapshot() == old(rooms[roomId].Snapshot())
      ensures var before := if roomId in old(rooms) then old(rooms[roomId].players) else [];
        (|before| >= 2 ==> reply == RoomFull && rooms[roomId].players == before) &&
        (|before| < 2 ==> reply == Init(if |before| == 0 then X else O) &&
                          rooms[roomId].players == before + [Player(conn, reply.mark)])
    {
      current := current[conn := roomId];
      if roomId !in rooms {
        var created := new Room(roomId);
        rooms := rooms[roomId := created];
      }
      var room := rooms[roomId];
      if |room.players| >= 2 {
        return RoomFull;
      }
      var mark := if |room.players| == 0 then X else O;
      room.players := room.players + [Player(conn, mark)];
      reply := Init(mark);
    }

    /**
     * "move": ignored unless the connection has a room id naming an existing
     * room; otherwise the room plays the move, the broadcast goes to the
     * room's players, and a win schedules the room's deferred reset.
     */
    method Move(conn: ConnId, i: Cell, m: Mark) returns (out: Option<Broadcast>)
      requires Valid()
      modifies this, Frame(conn)
      ensures Valid() && rooms == old(rooms) && current == old(current)
      ensures forall id :: id in rooms && (!Active(conn) || id != current[conn]) ==>
        unchanged(rooms[id])
      ensures !Active(conn) || current[conn] !in rooms ==> out.None? && pending == old(pending)
      ensures Active(conn) && current[conn] in rooms ==>
        var room := rooms[current[conn]];
        var s := Apply(old(room.Snapshot()), i, m);
        room.Snapshot() == s.game && room.players == old(room.players) &&
        out == (if s.event.Some? then Some(Broadcast(Conns(room.players), s.event.value)) else None) &&
        pending == old(pending) + (if s.event.Some? && s.event.value.winCombo.Some? then [room] else [])
    {
      if !Active(conn) || current[conn] !in rooms {
        return None;
      }
      var room := rooms[current[conn]];
      var event := room.Play(i, m);
      if event.None? {
        return None;
      }
      out := Some(Broadcast(Conns(room.players), event.value));
      if event.value.winCombo.Some? {
        pending := pending + [room];
      }
    }

    /**
     * "reset": ignored without a room id; a fault when the id names no room;
     * otherwise the room is cleared (score kept) and the reset broadcast goes
     * to its players.
     */
    method Reset(conn: ConnId) returns (reply: ResetReply)
      requires Valid()
      modifies Frame(conn)
      ensures Valid()
      ensures forall id :: id in rooms && (!Active(conn) || id != current[conn]) ==>
        unchanged(rooms[id])
      ensures !Active(conn) ==> reply == NotInRoom
      ensures Active(conn) && current[conn] !in rooms ==> reply == MissingRoom
      ensures Active(conn) && current[conn] in rooms ==>
        var room := rooms[current[conn]];
        room.Snapshot() == Cleared(old(room.Snapshot())) && room.players == old(room.players) &&
        reply == ResetSent(ResetEvent(Conns(room.players), room.score))
    {
      if !Active(conn) {
        return NotInRoom;
      }
      if current[conn] !in rooms {
        return MissingRoom;
      }
      var room := rooms[current[conn]];
      var event := room.Clear();
      reply := ResetSent(event);
    }

    /**
     * The oldest scheduled deferred reset fires: the room captured when the
     * win was seen is cleared and its players get the reset broadcast,
     * whether or not the room is still registered and whether or not it was
     * reset in between.
     */
    method FireTimer() returns (event: ResetEvent)
      requires Valid() && pending != []
      modifies this, pending[0]
      ensures Valid() && rooms == old(rooms) && current == old(current)
      ensures pending == old(pending[1..])
      ensures var room := old(pending[0]);
        room.Snapshot() == Cleared(old(room.Snapshot())) && room.players == old(room.players) &&
        event == ResetEvent(Conns(room.players), room.score)
    {
      var room := pending[0];
      pending := pending[1..];
      event := room.Clear();
    }

    /**
     * "close": the connection ends. With a room id naming an existing room,
     * the connection is filtered out of that room's players, every remaining
     * player is told "Opponent disconnected", and the room is deleted once no
     * player is left.
     */
    method Disconnect(conn: ConnId) returns (notified: seq<ConnId>)
      requires Valid()
      modifies this, Frame(conn)
      ensures Valid() && current == old(current) - {conn} && pending == old(pending)
      ensures forall id :: id in old(rooms) && (!old(Active(conn)) || id != old(current[conn])) ==>
        id in rooms && rooms[id] == old(rooms[id]) && unchanged(rooms[id])
      ensures !old(Active(conn)) || old(current[conn]) !in old(rooms) ==> notified == [] && rooms == old(rooms)
      ensures old(Active(conn)) && old(current[conn]) in old(rooms) ==>
        var id := old(current[conn]);
        var room := old(rooms[id]);
        room.players == Without(old(room.players), conn) && room.Snapshot() == old(room.Snapshot()) &&
        notified == Conns(room.players) &&
        rooms == (if room.players == [] then old(rooms) - {id} else old(rooms))
    {
      if !Active(conn) || current[conn] !in rooms {
        current := current - {conn};
        return [];
      }
      var id := current[conn];
      current := current - {conn};
      var room := rooms[id];
      room.players := Without(room.players, conn);
      notified := Conns(room.players);
      if room.players == [] {
        rooms := rooms - {id};
      }
    }
  }
}
