/**
 * A room object of server.js, updated in place by the message handlers: its
 * nine board cells are written one at a time, its history is pushed and
 * shifted, its fade flags set and deleted, its counters incremented. Each
 * method is proved to leave the room in the state the pure functions of
 * module Rules describe, and to keep the room Consistent.
 */
module Rooms {
  import opened Board
  import opened Rules

  /** An open connection (a socket), known only by its identity. */
  type ConnId = nat

  /** An entry of `room.players`: the connection and the mark it was assigned. */
  datatype Player = Player(conn: ConnId, mark: Mark)

  /** The payload of the "reset" broadcast and the connections it goes to. */
  datatype ResetEvent = ResetEvent(to: seq<ConnId>, score: Tally)

  /** The connections of a player list, in list order: the recipients of a broadcast. */
  function Conns(players: seq<Player>): (r: seq<ConnId>)
    ensures |r| == |players|
    ensures forall k :: 0 <= k < |r| ==> r[k] == players[k].conn
  {
    if players == [] then [] else [players[0].conn] + Conns(players[1..])
  }

  class Room {
    var players: seq<Player>
    var board: Grid
    var faded: FadeFlags
    var turn: Mark
    var moves: seq<Move>
    var shots: Tally
    var score: Tally
    /** The id the room was registered under; the room object itself does not store it. */
    ghost const id: string

    /** The room's game state as a value. */
    ghost function Snapshot(): Game
      reads this
    {
      Game(board, faded, moves, shots, score, turn)
    }

    /** The shape every method relies on; Consistent(Snapshot()) is kept on top of it by Play and Clear. */
    ghost predicate Valid()
      reads this
    {
      |board| == 9
    }

    /** The room created on the first join to an unseen id: no players, empty board, turn X, zero counters. */
    constructor (ghost key: string)
      ensures Valid() && id == key
      ensures players == [] && Snapshot() == EmptyGame(ZERO)
    {
      players := [];
      board := seq(9, _ => None);
      faded := map[];
      turn := X;
      moves := [];
      shots := ZERO;
      score := ZERO;
      id := key;
    }

    /**
     * The body of the "move" handler once the room is found: a taken cell
     * drops the message; otherwise place, fade, remove, search for a win,
     * build the broadcast, count the win and flip the turn.
     */
    method Play(i: Cell, m: Mark) returns (event: Option<MoveEvent>)
      requires Valid()
      modifies this
      ensures Valid() && players == old(players)
      ensures Step(Snapshot(), event) == Apply(old(Snapshot()), i, m)
      ensures Consistent(old(Snapshot())) ==> Consistent(Snapshot())
    {
      ghost var g := Snapshot();
      if board[i].Some? {
        return None;
      }
      Occupy(i, m);
      var fadedMove := FadeOldest();
      var removed := RemoveOldest();
      event := Conclude(i, m, fadedMove, removed);
      if Consistent(g) {
        ApplyKeepsConsistent(g, i, m);
      }
    }

    /** Occupy the cell, count the shot, list the cell as unfaded, push the move onto the history. */
    method Occupy(i: Cell, m: Mark)
      requires |board| == 9
      modifies this
      ensures |board| == 9 && players == old(players)
      ensures Snapshot() == Place(old(Snapshot()), i, m)
    {
      board := board[i := Some(m)];
      shots := shots.Bump(m);
      faded := faded[i := false];
      moves := moves + [Move(i, m)];
    }

    /** With more than 6 history entries, flag the oldest entry as faded unless it already is, and report it. */
    method FadeOldest() returns (fadedMove: Option<Move>)
      modifies this
      ensures |board| == |old(board)| && players == old(players)
      ensures (Snapshot(), fadedMove) == Fade(old(Snapshot()))
    {
      fadedMove := None;
      if |moves| > 6 {
        var oldest := moves[0];
        if !Flagged(faded, oldest.index) {
          fadedMove := Some(oldest);
          faded := faded[oldest.index := true];
        }
      }
    }

    /** With more than 7 history entries, shift the oldest entry out, empty its cell, delete its flag, and report it. */
    method RemoveOldest() returns (removed: Option<Move>)
      requires |board| == 9
      modifies this
      ensures |board| == 9 && players == old(players)
      ensures (Snapshot(), removed) == Expire(old(Snapshot()))
    {
      removed := None;
      if |moves| > 7 {
        var toRemove := moves[0];
        moves := moves[1..];
        board := board[toRemove.index := None];
        removed := Some(toRemove);
        faded := faded - {toRemove.index};
      }
    }

    /** Look for a win, build the broadcast with the score before the win is counted, count the win, flip the turn. */
    method Conclude(i: Cell, m: Mark, fadedMove: Option<Move>, removed: Option<Move>) returns (event: Option<MoveEvent>)
      requires |board| == 9
      modifies this
      ensures |board| == 9 && players == old(players)
      ensures Step(Snapshot(), event) == Settle(old(Snapshot()), i, m, fadedMove, removed)
    {
      var combo := WinningCombo(board, faded);
      var winner := if combo.Some? then board[combo.value.a] else None;
      event := Some(MoveEvent(i, m, fadedMove, removed, winner == Some(m), combo, shots, score));
      if winner.Some? {
        score := score.Bump(winner.value);
      }
      turn := Other(m);
    }

    /**
     * The reset body shared by the "reset" handler and the deferred reset
     * after a win: a fresh empty board, no fade flags, no history, zero
     * shots, turn X; the score and the players stay. The broadcast goes to
     * the players and carries the score.
     */
    method Clear() returns (event: ResetEvent)
      modifies this
      ensures Valid() && players == old(players)
      ensures Snapshot() == Cleared(old(Snapshot())) && Consistent(Snapshot())
      ensures event == ResetEvent(Conns(players), score)
    {
      board := seq(9, _ => None);
      faded := map[];
      moves := [];
      shots := ZERO;
      turn := X;
      ClearedRule(old(Snapshot()));
      event := ResetEvent(Conns(players), score);
    }
  }
}
