# Infinity Tic Tac Toe room server — a Dafny model

`server.js` is a WebSocket server that pairs two clients in a named room. It
keeps the authoritative state of each room: board, fade flags, move history,
shot counters, score and turn. It applies a tic-tac-toe variant in which old
moves fade and then disappear. It also broadcasts every change to the room's
players. This project models that per-room state machine and the registry of
rooms around it, and proves what the handlers promise.

The modules follow the server's structure:

- `Board` (board.dfy) holds the two marks, the nine cells, the table of eight
  winning triples and `getWinningCombo`: the first triple, in declaration
  order, whose three cells hold the same mark and none of which is flagged
  faded.
- `Rules` (rules.dfy) holds a room's game state as a value (`Game`) and the
  "move" message as the function `Apply`. `Apply` composes four stages:
  `Place`, `Fade`, `Expire`, `Settle`. The module also holds the reset
  (`Cleared`) and the room invariant `Consistent`. Consistent says:
  - the board holds exactly the history's moves;
  - the history names each cell at most once and has at most 7 entries;
  - fade flags exist exactly for the history's cells;
  - the only flag that can be set is the oldest entry's, and only while the
    history is full.

  The lemmas state the handler's rules: placement, the fade and removal
  window, win detection on unfaded cells, the score, the turn and the reset.
- `Trace` (trace.dfy) looks at streams of messages to one room:
  - the invariant holds after any mix of moves and resets;
  - the score never falls;
  - after a fade report, the next accepted move does not fade that entry
    again, and it removes the entry unless the fade already removed it;
  - from a new or reset room, every entry reported removed was reported
    faded on the same move or an earlier one, and no move in between
    removed it.
- `Rooms` (rooms.dfy) holds the room object as a class whose fields the
  methods update in place. Each stage is a method proved to compute the
  matching `Rules` function, so `Room.Play` computes exactly `Apply`, and
  `Room.Clear` computes exactly `Cleared`.
- `Registry` (registry.dfy) holds the process-wide state as a class `Server`:
  - the `rooms` map;
  - the `currentRoom` each connection remembers;
  - the queue of deferred resets scheduled after wins.

  Its methods are the "join", "move" and "reset" handlers, the firing of a
  deferred reset, and the "close" handler. What a handler sends is returned
  as a value.

Behaviours of the code that the model keeps on purpose:

- Fading and removal:
  - A move fades the oldest history entry, `room.moves[0]`
    (server.js:65-70), once the history has more than 6 entries.
  - It removes that entry once the history has more than 7 entries.
  - After a reset, the 7th move therefore fades the 1st move, and the 8th
    move removes it.
  - From then on the oldest entry is unflagged when a move arrives, so it is
    faded and removed by the same move.
- The "move" broadcast is serialised before `room.score[winner]++`, so it
  carries the score from before the win is counted.
- The mark a joiner gets depends only on how many players the room has: X
  for the first, O for any later one. A player who leaves and comes back can
  therefore leave two O players in a room. The mark in a "move" message is
  taken from the message and not checked against the turn or the sender.
- "join" records the room id before the full check. A refused connection
  therefore still remembers the full room.
- The id guard of "move", "reset" and "close" is a truthiness test, so the
  empty id is ignored there. "join" accepts it like any other id.
- "reset" on a remembered id whose room has been deleted dereferences a
  missing room. The model returns `MissingRoom` and changes nothing.
- A deferred reset clears the room object captured when the win was seen.
  It does so even if that room was reset by hand, or deleted, in between.

## Model

| member | source | states |
|---|---|---|
| Board.Other | server.js:121 | the turn passes to the mark that did not just play |
| Board.FirstWin | server.js:174-182 | `find` returns only a list member that wins |
| Board.FirstWinSpec | server.js:174-182 | `find` returns a winning triple at some position with no winning triple before it, and returns nothing exactly when no triple of the list wins |
| Board.WinningCombo | server.js:172-184 | the result is one of the eight table triples, its three cells hold the same mark, and none of them is faded |
| Board.WinningComboSpec | server.js:172-184 | returns a table triple whose three cells hold one mark, none of them faded, with no earlier table entry winning; returns null exactly when no triple wins |
| Rules.Tally.Bump | server.js:57 | `counter[m]++` raises m's count by one and leaves the other mark's |
| Rules.EmptyGame | server.js:29-37 | the room a first join creates: empty board, no flags, no history, zero shots, turn X and the given score; `Rooms.Room.constructor` builds it in place and `ClearedRule` proves it consistent |
| Rules.Cleared | server.js:126-130 | the reset body, shared by the deferred reset at server.js:104-108, keeps only the score; `ClearedRule` states that the result is empty and consistent with zero shots and turn X, and that resetting twice equals resetting once |
| Rules.Place | server.js:56-59 | the first stage of an accepted move; `PlaceWellFormed` states that it keeps board, history and flags in step and adds one entry, and `AcceptedMoveEffects` states the mark, the shot, the unfaded key and the appended entry |
| Rules.Fade | server.js:64-71 | the fade stage; `FadeRule` states that it reports exactly the oldest entry when the history exceeds 6 and that entry is unflagged, and `FadeWellFormed` states that it only adds that one flag and changes nothing else |
| Rules.Expire | server.js:73-79 | the removal stage; `RemovalRule` states that it reports exactly the oldest entry when the history exceeds 7, and `ExpireWellFormed` states that it empties that entry's cell, deletes its flag key and keeps the rest of the history |
| Rules.Settle | server.js:81-121 | the last stage of an accepted move; `SettleRule` states its win search on the board after fade and removal, the broadcast with the earlier score, the score bump for the winning mark and the turn flip |
| Rules.Apply | server.js:52-122 | a move to an occupied cell is dropped with no broadcast and no change; any other move is broadcast |
| Rules.OccupancyMatchesHistory | server.js:56-59 | under the invariant, a cell is occupied exactly when the history names it, and it holds that entry's mark |
| Rules.PlaceWellFormed | server.js:56-59 | placing on an empty cell keeps board, history and flags in step and lengthens the history by one |
| Rules.FadeWellFormed | server.js:64-71 | the fade step leaves board, history, shot counts, score and turn unchanged; it may only add a flag, and only on the oldest entry when the history exceeds 6 |
| Rules.ExpireWellFormed | server.js:73-79 | shifting the oldest entry empties its cell, deletes its flag key, and leaves the history's tail; no other flag is added, and board, history and flags stay in step |
| Rules.ApplyKeepsConsistent | server.js:52-122 | every move, accepted or dropped, keeps the room invariant |
| Rules.FlagSetByReport | server.js:64-71 | a flag standing after a move was set, and reported as `faded`, by that very move, on the oldest of 7 entries |
| Rules.FlagEndsWithRemoval | server.js:73-79 | a flag standing before an accepted move sits on the oldest entry, and that move removes the entry and deletes the flag |
| Rules.AcceptedMoveEffects | server.js:56-59 | an accepted move puts the mark on the cell, raises only that mark's shot count, lists the cell unfaded, appends the move, and leaves every other cell alone except a removed one |
| Rules.FadeRule | server.js:64-71 | `faded` is reported exactly when the history exceeds 6 entries and its oldest entry is unflagged, and it is that oldest entry |
| Rules.RemovalRule | server.js:73-79 | `removed` is reported exactly when the history exceeds 7 entries; it is the oldest entry, whose cell is emptied and whose flag is deleted |
| Rules.FadeRemovalTiming | server.js:64-79 | no fade before the 7th entry; the 7th entry fades the 1st; a flagged oldest entry is removed without a new fade; an unflagged one is faded and removed by the same move |
| Rules.SettleRule | server.js:81-121 | `winCombo` is the search on the board after fade and removal; `win` holds exactly when the triple's mark is the placing mark; a win raises only the winning mark's score; the broadcast carries the earlier score; the turn flips |
| Rules.ClearedRule | server.js:124-130 | a reset yields an empty, consistent room with zero shots and turn X that keeps the score; resetting twice equals resetting once |
| Trace.Events | server.js:52-122 | a stream of move messages yields one broadcast slot per message |
| Trace.RunKeepsConsistent | server.js:52-140 | any sequence of moves and resets applied to a consistent room leaves it consistent |
| Trace.ScoreNeverFalls | server.js:101-102 | neither mark's score ever falls over any sequence of moves and resets |
| Trace.AfterFade | server.js:64-79 | right after a fade report, the history is full and the reported entry has either left the history (faded and removed together) or is its flagged oldest entry |
| Trace.FadedOnceThenRemoved | server.js:64-79 | after a fade report, the next accepted move does not fade that entry again and removes it, unless it was already removed together with the fade |
| Trace.RemovedOnFirst | server.js:64-79 | a single move's removal is its own fade report, unless the entry was flagged beforehand |
| Trace.FlagCarriedOver | server.js:64-71 | a flag on the oldest entry after a move was that move's fade report, and that move removed nothing |
| Trace.EventsShift | server.js:52-122 | the first message of a stream gives the first broadcast, and later broadcasts are those of the rest of the stream from the game the first message leaves |
| Trace.RemovedAtStart | server.js:64-79 | a removal reported by the first message of a stream is that message's fade report, or the entry was the flagged oldest entry beforehand |
| Trace.RemovedInTail | server.js:52-122 | a removal at message k > 0 of a stream is a removal at message k - 1 of the rest of the stream, which starts from a consistent game |
| Trace.RemovedStep | server.js:61-79 | a fade report of r in the rest of a stream, or a flag the first message leaves on r, each followed by no removal of r before message k, is such a report for the whole stream, or r was flagged before it |
| Trace.RemovedWasFadedFrom | server.js:61-79 | every removal of r reported at message k follows a fade report of r at some message j <= k with no removal of r from j to k, or r was already flagged before the stream and not removed before k |
| Trace.RemovedWasFaded | server.js:61-79 | from a room with no flag set, every removal is preceded by, or coincides with, a fade report of the same entry, and no message in between removed that entry |
| Rooms.Conns | server.js:84-85 | a broadcast goes to the room's players' connections, in list order |
| Rooms.Room.constructor | server.js:29-37 | a new room has no players, an empty board, no flags, no history, zero counters and turn X |
| Rooms.Room.Play | server.js:53-121 | the in-place move handler leaves the room in exactly `Apply`'s state, returns `Apply`'s broadcast, keeps the player list, and keeps the room consistent |
| Rooms.Room.Occupy | server.js:56-59 | the in-place first step computes `Place` |
| Rooms.Room.FadeOldest | server.js:64-71 | the in-place fade step computes `Fade`, flag and report included |
| Rooms.Room.RemoveOldest | server.js:73-79 | the in-place removal step computes `Expire`, cell, flag, history and report included |
| Rooms.Room.Conclude | server.js:81-121 | the in-place win search, broadcast, score and turn update computes `Settle` |
| Rooms.Room.Clear | server.js:124-139 | the in-place reset computes `Cleared`, leaves the room consistent, keeps the players, and returns the reset broadcast with the kept score |
| Registry.Without | server.js:161 | the filtered player list keeps exactly the players on other connections, each as many times as before, drops every player on this connection, is no longer than before, and is unchanged when the connection was not in it |
| Registry.WithoutAppend | server.js:161 | filtering a concatenation filters each part and keeps them in order; with the one-player cases of `Without`, the filter keeps the remaining players in their original order |
| Registry.Server.constructor | server.js:5 | the server starts with no rooms, no remembered room ids and no scheduled resets |
| Registry.Server.Join | server.js:24-49 | the id is remembered even when refused; an unseen id gets a new empty room; a room with two players refuses with no change; otherwise the joiner is appended with X if alone, else O; other rooms are untouched |
| Registry.Server.Move | server.js:52-122 | ignored without a truthy id or an existing room; otherwise the room computes `Apply`, the broadcast goes to its players, a win schedules that room's deferred reset, and no other room changes |
| Registry.Server.Reset | server.js:124-140 | ignored without a truthy id; a deleted room is a fault; otherwise the room computes `Cleared` and its players get the kept score; no other room changes |
| Registry.Server.FireTimer | server.js:103-118 | the oldest scheduled reset clears the room captured at the win, registered or not, and sends its players the kept score |
| Registry.Server.Disconnect | server.js:156-169 | the connection is forgotten; with a truthy id naming an existing room, it is filtered out of the players, the rest are notified, and the room is deleted when empty; all else is untouched |

## Left out

- WebSocket transport, JSON parsing and serialisation are not modelled. A
  handler returns the recipients and payload of what it would send.
- Malformed input is not modelled. A "move" whose index is not 0..8, or whose
  player is neither "X" nor "O", is outside the model, because the message
  type carries a `Cell` and a `Mark`. Room ids are strings.
- "chat" relay (server.js:142-153) is not modelled: it changes no state.
- The per-connection `playerId` is not modelled. It is written on join and
  only echoed in the "init" reply, which the model returns as `Init(mark)`.
- Closing a refused connection is not modelled separately. Its later "close"
  event is the `Disconnect` method.
- Timer timing is not modelled. The 2-second `setTimeout` deferred resets all
  share one delay, so they fire in scheduling order. They are a FIFO queue of
  captured rooms, and `FireTimer` fires the oldest one. How they interleave
  with other messages is left to the caller.
- `MissingRoom` stands for the fault raised when "reset" dereferences a
  deleted room. What that fault does to the process is not modelled.
- The startup log line (server.js:186) is not modelled.
- Rooms.Room.Play: the board is modelled as a 9-cell sequence field that
  each write reassigns, not as a shared array. The source never aliases a
  room's board, so nothing observable is lost.
- Registry.Server.Move: the server-wide invariant does not repeat room
  consistency. `Room.Play` and `Room.Clear` keep it for each room, the room
  constructor starts from `EmptyGame`, which `Rules.ClearedRule` proves
  consistent, and `Trace.RunKeepsConsistent` covers any message sequence.
