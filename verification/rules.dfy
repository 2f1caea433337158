/**
 * The per-room game state of server.js as a value, and one "move" message
 * applied to it as a function. The imperative Room class (rooms.dfy) is
 * proved to compute exactly these functions; the lemmas here state what the
 * move handler promises: placement, the fade and removal window, win
 * detection on unfaded cells, score and turn, and the manual/deferred reset.
 */
module Rules {
  import opened Board

  /** Per-mark counter, the `{ X: n, O: n }` objects `shots` and `score`. */
  datatype Tally = Tally(x: nat, o: nat) {
    function Of(m: Mark): nat
    {
      if m == X then x else o
    }

    /** `tally[m]++`: only m's count rises, by exactly one. */
    function Bump(m: Mark): (r: Tally)
      ensures r.Of(m) == Of(m) + 1 && r.Of(Other(m)) == Of(Other(m))
    {
      if m == X then Tally(x + 1, o) else Tally(x, o + 1)
    }
  }

  const ZERO: Tally := Tally(0, 0)

  /** A history entry `{ index, player }`. */
  datatype Move = Move(index: Cell, mark: Mark)

  /** Everything in a room except its player list. */
  datatype Game = Game(board: Grid, faded: FadeFlags, moves: seq<Move>,
                       shots: Tally, score: Tally, turn: Mark)

  /** The payload of the "move" broadcast. */
  datatype MoveEvent = MoveEvent(index: Cell, mark: Mark, faded: Option<Move>, removed: Option<Move>,
                                 win: bool, winCombo: Option<Triple>, shots: Tally, score: Tally)

  /** Result of one "move" message: the new state and the broadcast (None when the cell was taken). */
  datatype Step = Step(game: Game, event: Option<MoveEvent>)

  /** The cells named by a move history. */
  function Indices(moves: seq<Move>): set<Cell>
  {
    set mv | mv in moves :: mv.index
  }

  predicate Distinct(moves: seq<Move>)
  {
    forall j, k :: 0 <= j < k < |moves| ==> moves[j].index != moves[k].index
  }

  /**
   * The board holds exactly the history's moves, the history names each
   * cell at most once, and fade flags exist exactly for the history's cells.
   * This holds at every stage of a move, also between its steps.
   */
  predicate WellFormed(g: Game)
  {
    |g.board| == 9 && Distinct(g.moves) &&
    (forall k :: 0 <= k < |g.moves| ==> g.board[g.moves[k].index] == Some(g.moves[k].mark)) &&
    (forall c: Cell :: g.board[c].Some? ==> c in Indices(g.moves)) &&
    g.faded.Keys == Indices(g.moves)
  }

  /**
   * The room invariant between messages: well formed, at most 7 history
   * entries, and the only cell that can be flagged faded is the oldest
   * entry's, and only while the history is full.
   */
  predicate Consistent(g: Game)
  {
    WellFormed(g) && |g.moves| <= 7 &&
    (forall c :: Flagged(g.faded, c) ==> |g.moves| == 7 && c == g.moves[0].index)
  }

  /** A room as created on first join, or as left by a reset, keeping `score`. */
  function EmptyGame(score: Tally): Game
  {
    Game(seq(9, _ => None), map[], [], ZERO, score, X)
  }

  /** The reset body (manual and deferred): clear everything but the score. */
  function Cleared(g: Game): Game
  {
    EmptyGame(g.score)
  }

  /** Step 1 of an accepted move: occupy the cell, count the shot, unflag the cell, append to history. */
  function Place(g: Game, i: Cell, m: Mark): Game
    requires |g.board| == 9
  {
    g.(board := g.board[i := Some(m)], shots := g.shots.Bump(m),
       faded := g.faded[i := false], moves := g.moves + [Move(i, m)])
  }

  /** Step 2: with more than 6 entries, flag the oldest entry unless it is already flagged. */
  function Fade(g: Game): (Game, Option<Move>)
  {
    if |g.moves| > 6 && !Flagged(g.faded, g.moves[0].index) then
      (g.(faded := g.faded[g.moves[0].index := true]), Some(g.moves[0]))
    else
      (g, None)
  }

  /** Step 3: with more than 7 entries, shift the oldest entry, clear its cell and drop its flag. */
  function Expire(g: Game): (Game, Option<Move>)
    requires |g.board| == 9
  {
    if |g.moves| > 7 then
      (g.(board := g.board[g.moves[0].index := None], faded := g.faded - {g.moves[0].index},
          moves := g.moves[1..]), Some(g.moves[0]))
    else
      (g, None)
  }

  /**
   * Step 4: look for a win on the board as left by steps 1-3, build the
   * broadcast (with the score as it was before the win is counted), count
   * the win for the winning triple's mark and flip the turn.
   */
  function Settle(e: Game, i: Cell, m: Mark, fadedMove: Option<Move>, removed: Option<Move>): Step
    requires |e.board| == 9
  {
    var combo := WinningCombo(e.board, e.faded);
    var winner := if combo.Some? then e.board[combo.value.a] else None;
    var event := MoveEvent(i, m, fadedMove, removed, winner == Some(m), combo, e.shots, e.score);
    var score := if winner.Some? then e.score.Bump(winner.value) else e.score;
    Step(e.(score := score, turn := Other(m)), Some(event))
  }

  /**
   * One "move" message `{ index: i, player: m }` for an existing room:
   * ignored when the cell is taken; otherwise place, fade, expire and settle.
   */
  function Apply(g: Game, i: Cell, m: Mark): (r: Step)
    requires |g.board| == 9
    ensures r.event.None? <==> g.board[i].Some?
    ensures r.event.None? ==> r.game == g
    ensures |r.game.board| == 9
  {
    if g.board[i].Some? then Step(g, None)
    else
      var (f, fadedMove) := Fade(Place(g, i, m));
      var (e, removed) := Expire(f);
      Settle(e, i, m, fadedMove, removed)
  }

  // ----- facts about move histories -----

  lemma IndicesAppend(s: seq<Move>, mv: Move)
    ensures Indices(s + [mv]) == Indices(s) + {mv.index}
  {
    assert forall x :: x in s + [mv] <==> x in s || x == mv;
  }

  lemma IndicesTail(s: seq<Move>)
    requires |s| > 0 && Distinct(s)
    ensures Indices(s[1..]) == Indices(s) - {s[0].index}
  {
    forall c | c in Indices(s) - {s[0].index} ensures c in Indices(s[1..]) {
      var mv :| mv in s && mv.index == c;
      var k :| 0 <= k < |s| && s[k] == mv;
      assert k != 0;
      assert s[1..][k - 1] == mv;
    }
    forall c | c in Indices(s[1..]) ensures c != s[0].index {
      var mv :| mv in s[1..] && mv.index == c;
      var k :| 0 <= k < |s[1..]| && s[1..][k] == mv;
      assert s[k + 1] == mv;
    }
  }

  /** Under the invariant, a cell is occupied exactly when the history names it, with the same mark. */
  lemma OccupancyMatchesHistory(g: Game)
    requires Consistent(g)
    ensures forall c: Cell :: g.board[c].Some? <==> c in Indices(g.moves)
    ensures forall c: Cell :: c in Indices(g.moves) ==> exists k :: 0 <= k < |g.moves| && g.moves[k].index == c && g.board[c] == Some(g.moves[k].mark)
  {
    forall c: Cell | c in Indices(g.moves)
      ensures exists k :: 0 <= k < |g.moves| && g.moves[k].index == c && g.board[c] == Some(g.moves[k].mark)
    {
      var mv :| mv in g.moves && mv.index == c;
      var k :| 0 <= k < |g.moves| && g.moves[k] == mv;
    }
  }

  // ----- the move handler's promises -----

  lemma PlaceWellFormed(g: Game, i: Cell, m: Mark)
    requires Consistent(g) && g.board[i].None?
    ensures var p := Place(g, i, m);
      WellFormed(p) && |p.moves| == |g.moves| + 1 &&
      forall c :: Flagged(p.faded, c) ==> |g.moves| == 7 && c == p.moves[0].index
  {
    OccupancyMatchesHistory(g);
    var p := Place(g, i, m);
    IndicesAppend(g.moves, Move(i, m));
    assert Distinct(p.moves) by {
      forall j, k | 0 <= j < k < |p.moves| ensures p.moves[j].index != p.moves[k].index {
        if k == |g.moves| {
          assert p.moves[j] in g.moves;
        }
      }
    }
    forall c | Flagged(p.faded, c) ensures |g.moves| == 7 && c == p.moves[0].index {
      assert c != i && Flagged(g.faded, c);
    }
  }

  /** The fade step only adds a flag, and only on the oldest entry of a history longer than 6. */
  lemma FadeWellFormed(p: Game)
    requires WellFormed(p)
    ensures var f := Fade(p).0;
      WellFormed(f) && f == p.(faded := f.faded) &&
      (forall c :: Flagged(p.faded, c) ==> Flagged(f.faded, c)) &&
      forall c :: Flagged(f.faded, c) ==> Flagged(p.faded, c) || (|p.moves| > 6 && c == p.moves[0].index)
  {
    if |p.moves| > 6 {
      assert p.moves[0] in p.moves;
    }
  }

  /** The removal step empties the oldest entry's cell, deletes its flag and keeps the rest of the history. */
  lemma ExpireWellFormed(f: Game)
    requires WellFormed(f) && |f.moves| > 7
    ensures var e := Expire(f).0;
      WellFormed(e) && e.board[f.moves[0].index].None? && f.moves[0].index !in e.faded &&
      e.moves == f.moves[1..] &&
      forall c :: Flagged(e.faded, c) ==> Flagged(f.faded, c) && c != f.moves[0].index
  {
    IndicesTail(f.moves);
    var e := Expire(f).0;
    assert forall k :: 0 <= k < |e.moves| ==> e.moves[k] == f.moves[k + 1];
  }

  /** Every accepted or ignored move keeps the room invariant. */
  lemma ApplyKeepsConsistent(g: Game, i: Cell, m: Mark)
    requires Consistent(g)
    ensures Consistent(Apply(g, i, m).game)
  {
    if g.board[i].None? {
      var p := Place(g, i, m);
      PlaceWellFormed(g, i, m);
      var f := Fade(p).0;
      FadeWellFormed(p);
      if |f.moves| > 7 {
        ExpireWellFormed(f);
      } else {
        forall c | Flagged(f.faded, c) ensures |f.moves| == 7 && c == f.moves[0].index {
          assert !Flagged(p.faded, c);
        }
      }
    }
  }

  /**
   * A fade flag stands after a move only if that very move reported the
   * fade: the history had 6 entries and the flagged cell is the oldest one.
   */
  lemma FlagSetByReport(g: Game, i: Cell, m: Mark, c: Cell)
    requires Consistent(g) && g.board[i].None?
    requires Flagged(Apply(g, i, m).game.faded, c)
    ensures |g.moves| == 6 && c == g.moves[0].index
    ensures Apply(g, i, m).event.value.faded == Some(g.moves[0])
  {
    var p := Place(g, i, m);
    PlaceWellFormed(g, i, m);
    var f := Fade(p).0;
    FadeWellFormed(p);
    if |f.moves| > 7 {
      ExpireWellFormed(f);
      assert false;
    }
    assert !Flagged(p.faded, c);
  }

  /**
   * A fade flag that stands before an accepted move is on the oldest entry
   * of a full history, and that move removes the entry and deletes its flag:
   * a flag lasts until its entry is removed.
   */
  lemma FlagEndsWithRemoval(g: Game, i: Cell, m: Mark, c: Cell)
    requires Consistent(g) && g.board[i].None? && Flagged(g.faded, c)
    ensures var s := Apply(g, i, m);
      |g.moves| == 7 && c == g.moves[0].index &&
      s.event.value.removed == Some(g.moves[0]) && c !in s.game.faded
  {
    RemovalRule(g, i, m);
  }

  /**
   * An accepted move: the cell holds the mark, only that mark's shot count
   * rises, the cell is listed unfaded, the move ends the history (after the
   * oldest entry is shifted out when the window was full), and no other cell
   * changes except the shifted-out one.
   */
  lemma AcceptedMoveEffects(g: Game, i: Cell, m: Mark)
    requires Consistent(g) && g.board[i].None?
    ensures var g' := Apply(g, i, m).game;
      g'.board[i] == Some(m) &&
      g'.shots == g.shots.Bump(m) &&
      i in g'.faded && !g'.faded[i] &&
      g'.moves == (if |g.moves| == 7 then g.moves[1..] else g.moves) + [Move(i, m)] &&
      forall c: Cell :: c != i && (|g.moves| < 7 || c != g.moves[0].index) ==> g'.board[c] == g.board[c]
  {
    OccupancyMatchesHistory(g);
    assert i !in Indices(g.moves);
    if |g.moves| > 0 {
      assert g.moves[0] in g.moves;
    }
    var e := Expire(Fade(Place(g, i, m)).0).0;
    var g' := Apply(g, i, m).game;
    assert g'.board == e.board && g'.faded == e.faded && g'.moves == e.moves && g'.shots == e.shots;
  }

  /**
   * The fade rule: a fade is reported exactly when the history (with the new
   * move) exceeds 6 entries and its oldest entry is not yet flagged, and
   * the reported entry is that oldest entry.
   */
  lemma FadeRule(g: Game, i: Cell, m: Mark)
    requires Consistent(g) && g.board[i].None?
    ensures var ev := Apply(g, i, m).event.value;
      (ev.faded.Some? <==> |g.moves| >= 6 && !Flagged(g.faded, g.moves[0].index)) &&
      (ev.faded.Some? ==> ev.faded == Some(g.moves[0]))
  {
    OccupancyMatchesHistory(g);
    if |g.moves| > 0 {
      assert g.moves[0] in g.moves;
    }
  }

  /**
   * The removal rule: a removal happens exactly when the history (with the
   * new move) exceeds 7 entries; it shifts out the oldest entry, empties its
   * cell and deletes its fade flag.
   */
  lemma RemovalRule(g: Game, i: Cell, m: Mark)
    requires Consistent(g) && g.board[i].None?
    ensures var s := Apply(g, i, m);
      (s.event.value.removed.Some? <==> |g.moves| == 7) &&
      (s.event.value.removed.Some? ==>
         s.event.value.removed == Some(g.moves[0]) &&
         s.game.board[g.moves[0].index].None? &&
         g.moves[0].index !in s.game.faded &&
         s.game.moves == g.moves[1..] + [Move(i, m)])
  {
    OccupancyMatchesHistory(g);
    if |g.moves| > 0 {
      assert g.moves[0] in g.moves;
    }
  }

  /**
   * The window's timing after a reset: the 7th entry fades the 1st; the
   * next move removes that entry without a fade; once the window is full
   * and its oldest entry unflagged, the same entry is reported both faded
   * and removed in one step.
   */
  lemma FadeRemovalTiming(g: Game, i: Cell, m: Mark)
    requires Consistent(g) && g.board[i].None?
    ensures var ev := Apply(g, i, m).event.value;
      (|g.moves| < 6 ==> ev.faded.None? && ev.removed.None?) &&
      (|g.moves| == 6 ==> ev.faded == Some(g.moves[0]) && ev.removed.None?) &&
      (|g.moves| == 7 && Flagged(g.faded, g.moves[0].index) ==>
         ev.faded.None? && ev.removed == Some(g.moves[0])) &&
      (|g.moves| == 7 && !Flagged(g.faded, g.moves[0].index) ==>
         ev.faded == Some(g.moves[0]) && ev.removed == Some(g.moves[0]))
  {
    FadeRule(g, i, m);
    RemovalRule(g, i, m);
  }

  /**
   * Win reporting, score and turn: the win search runs on the board after
   * the fade and removal; `win` holds exactly when a triple was found and
   * holds the placing mark; a found triple raises its own mark's score by
   * one and leaves the other; the broadcast carries the score from before
   * that rise; the turn passes to the other mark whether or not anyone won.
   */
  lemma SettleRule(g: Game, i: Cell, m: Mark)
    requires |g.board| == 9 && g.board[i].None?
    ensures var s := Apply(g, i, m); var ev := s.event.value;
      ev.index == i && ev.mark == m &&
      ev.winCombo == WinningCombo(s.game.board, s.game.faded) &&
      (ev.win <==> ev.winCombo.Some? && s.game.board[ev.winCombo.value.a] == Some(m)) &&
      (ev.winCombo.Some? ==>
         var w := s.game.board[ev.winCombo.value.a].value;
         s.game.score.Of(w) == g.score.Of(w) + 1 && s.game.score.Of(Other(w)) == g.score.Of(Other(w))) &&
      (ev.winCombo.None? ==> s.game.score == g.score) &&
      ev.score == g.score && ev.shots == s.game.shots &&
      s.game.turn == Other(m)
  {
  }

  /**
   * The reset (manual and deferred): an empty, consistent room with zeroed
   * shots and turn X that keeps the score; resetting twice equals resetting once.
   */
  lemma ClearedRule(g: Game)
    ensures var r := Cleared(g);
      Consistent(r) && r.score == g.score &&
      (forall c: Cell :: r.board[c].None?) && r.faded == map[] && r.moves == [] &&
      r.shots == ZERO && r.turn == X &&
      Cleared(r) == r
  {
  }
}
