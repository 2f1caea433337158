/**
 * Streams of messages to one room: the room invariant holds after any mix
 * of moves and resets, the score never falls, and every entry the server
 * reports as removed was reported as faded on the same move or an earlier one.
 */
module Trace {
  import opened Board
  import opened Rules

  /** The broadcasts that a stream of `{ index, player }` messages produces, one per message (None when ignored). */
  function Events(g: Game, plays: seq<Move>): (r: seq<Option<MoveEvent>>)
    requires |g.board| == 9
    ensures |r| == |plays|
    decreases |plays|
  {
    if plays == [] then []
    else
      var s := Apply(g, plays[0].index, plays[0].mark);
      [s.event] + Events(s.game, plays[1..])
  }

  /** A removal reported by a single move is that move's fade report, unless the entry was flagged beforehand. */
  lemma RemovedOnFirst(g: Game, i: Cell, m: Mark)
    requires Consistent(g) && g.board[i].None?
    requires Apply(g, i, m).event.value.removed.Some?
    ensures var ev := Apply(g, i, m).event.value;
      ev.faded == ev.removed || (|g.moves| == 7 && Flagged(g.faded, g.moves[0].index) && ev.removed == Some(g.moves[0]))
  {
    FadeRemovalTiming(g, i, m);
    RemovalRule(g, i, m);
  }

  /** A flag standing on the oldest entry after a move was reported as that move's fade, by a move that removed nothing. */
  lemma FlagCarriedOver(g: Game, i: Cell, m: Mark)
    requires Consistent(g) && g.board[i].None?
    requires var g' := Apply(g, i, m).game; |g'.moves| == 7 && Flagged(g'.faded, g'.moves[0].index)
    ensures Apply(g, i, m).event.value.faded == Some(Apply(g, i, m).game.moves[0])
    ensures Apply(g, i, m).event.value.removed.None?
  {
    var g' := Apply(g, i, m).game;
    FlagSetByReport(g, i, m, g'.moves[0].index);
    FadeRemovalTiming(g, i, m);
    AcceptedMoveEffects(g, i, m);
  }

  /**
   * Right after a fade report the reported entry has either left the history
   * (faded and removed by the same move) or is the flagged oldest entry of a
   * full history.
   */
  lemma AfterFade(g: Game, i: Cell, m: Mark)
    requires Consistent(g) && g.board[i].None?
    requires Apply(g, i, m).event.value.faded.Some?
    ensures var ev := Apply(g, i, m).event.value; var g' := Apply(g, i, m).game;
      Consistent(g') && |g'.moves| == 7 &&
      (ev.removed == ev.faded ==> ev.faded.value !in g'.moves) &&
      (ev.removed != ev.faded ==> g'.moves[0] == ev.faded.value && Flagged(g'.faded, g'.moves[0].index))
  {
    FadeRemovalTiming(g, i, m);
    AcceptedMoveEffects(g, i, m);
    ApplyKeepsConsistent(g, i, m);
    var g' := Apply(g, i, m).game;
    if |g.moves| == 7 {
      OccupancyMatchesHistory(g);
      assert g'.moves == g.moves[1..] + [Move(i, m)];
      assert g.moves[0] !in g.moves[1..];
    } else {
      assert Flagged(g'.faded, g'.moves[0].index);
    }
  }

  /**
   * After a move reports a fade, the next accepted move does not report that
   * entry faded again, and it removes the entry unless the same move already
   * faded and removed it.
   */
  lemma FadedOnceThenRemoved(g: Game, i: Cell, m: Mark, i2: Cell, m2: Mark)
    requires Consistent(g) && g.board[i].None?
    requires Apply(g, i, m).event.value.faded.Some?
    requires Apply(g, i, m).game.board[i2].None?
    ensures var ev := Apply(g, i, m).event.value;
      var next := Apply(Apply(g, i, m).game, i2, m2).event.value;
      next.faded != ev.faded && (ev.removed != ev.faded ==> next.removed == ev.faded)
  {
    AfterFade(g, i, m);
    FadeRemovalTiming(Apply(g, i, m).game, i2, m2);
  }

  /** No message at a position in [a, b) of a stream reported entry r as removed. */
  predicate KeptBetween(evs: seq<Option<MoveEvent>>, a: nat, b: nat, r: Move)
  {
    forall l :: a <= l < b && l < |evs| && evs[l].Some? ==> evs[l].value.removed != Some(r)
  }

  /** Some message at position j <= k of a stream reported entry r as faded, and no message from j up to k removed it. */
  predicate FadeReported(evs: seq<Option<MoveEvent>>, k: nat, r: Move)
  {
    exists j :: 0 <= j <= k && j < |evs| && evs[j].Some? && evs[j].value.faded == Some(r) && KeptBetween(evs, j, k, r)
  }

  /** Entry r is the flagged oldest entry of a full history, and no message before k of the stream removed it. */
  predicate FlaggedBefore(g: Game, evs: seq<Option<MoveEvent>>, k: nat, r: Move)
  {
    |g.moves| == 7 && Flagged(g.faded, g.moves[0].index) && r == g.moves[0] && KeptBetween(evs, 0, k, r)
  }

  /** The first message of a stream gives the first broadcast; the rest come from the game it leaves. */
  lemma EventsShift(g: Game, plays: seq<Move>, j: nat)
    requires |g.board| == 9 && 0 < j < |plays|
    ensures var s := Apply(g, plays[0].index, plays[0].mark);
      Events(g, plays)[0] == s.event && Events(g, plays)[j] == Events(s.game, plays[1..])[j - 1]
  {
    var s := Apply(g, plays[0].index, plays[0].mark);
    var evs := Events(g, plays);
    var tail := Events(s.game, plays[1..]);
    assert evs == [s.event] + tail;
    assert evs[j] == tail[j - 1];
  }

  /** Putting one broadcast in front of a stream shifts a stretch free of removals of r by one. */
  lemma KeptShift(e: Option<MoveEvent>, tail: seq<Option<MoveEvent>>, a: nat, b: nat, r: Move)
    requires KeptBetween(tail, a, b, r)
    ensures KeptBetween([e] + tail, a + 1, b + 1, r)
  {
    forall l | a + 1 <= l < b + 1 && l < |[e] + tail|
      ensures ([e] + tail)[l] == tail[l - 1]
    {
    }
  }

  /** The base case: a removal reported by the first message of a stream. */
  lemma RemovedAtStart(g: Game, plays: seq<Move>, r: Move)
    requires Consistent(g) && plays != []
    requires Events(g, plays)[0].Some? && Events(g, plays)[0].value.removed == Some(r)
    ensures FadeReported(Events(g, plays), 0, r) || FlaggedBefore(g, Events(g, plays), 0, r)
  {
    var s := Apply(g, plays[0].index, plays[0].mark);
    assert Events(g, plays) == [s.event] + Events(s.game, plays[1..]);
    RemovedOnFirst(g, plays[0].index, plays[0].mark);
  }

  /**
   * The inductive step: a fade report found in the rest of the stream, or a
   * flag the first message left, with no removal of r in between, is such a
   * report of the whole stream.
   */
  lemma RemovedStep(g: Game, plays: seq<Move>, k: nat, r: Move)
    requires Consistent(g) && 0 < k < |plays|
    requires Events(g, plays)[k].Some? && Events(g, plays)[k].value.removed == Some(r)
    requires var g' := Apply(g, plays[0].index, plays[0].mark).game;
      FadeReported(Events(g', plays[1..]), k - 1, r) || FlaggedBefore(g', Events(g', plays[1..]), k - 1, r)
    ensures FadeReported(Events(g, plays), k, r) || FlaggedBefore(g, Events(g, plays), k, r)
  {
    var s := Apply(g, plays[0].index, plays[0].mark);
    var evs := Events(g, plays);
    var tail := Events(s.game, plays[1..]);
    EventsShift(g, plays, k);
    if FadeReported(tail, k - 1, r) {
      var j :| 0 <= j <= k - 1 && j < |tail| && tail[j].Some? && tail[j].value.faded == Some(r) && KeptBetween(tail, j, k - 1, r);
      EventsShift(g, plays, j + 1);
      assert evs == [s.event] + tail;
      KeptShift(s.event, tail, j, k - 1, r);
      assert evs[j + 1].Some? && evs[j + 1].value.faded == Some(r);
    } else {
      assert evs == [s.event] + tail;
      KeptShift(s.event, tail, 0, k - 1, r);
      if s.event.Some? {
        FlagCarriedOver(g, plays[0].index, plays[0].mark);
        assert evs[0].value.faded == Some(r) && evs[0].value.removed.None?;
        assert KeptBetween(evs, 0, k, r);
      } else {
        assert KeptBetween(evs, 0, k, r);
      }
    }
  }

  /** A removal at message k > 0 is a removal at message k - 1 of the rest of the stream, from a consistent game. */
  lemma RemovedInTail(g: Game, plays: seq<Move>, k: nat, r: Move)
    requires Consistent(g) && 0 < k < |plays|
    requires Events(g, plays)[k].Some? && Events(g, plays)[k].value.removed == Some(r)
    ensures var g' := Apply(g, plays[0].index, plays[0].mark).game;
      Consistent(g') && Events(g', plays[1..])[k - 1].Some? && Events(g', plays[1..])[k - 1].value.removed == Some(r)
  {
    ApplyKeepsConsistent(g, plays[0].index, plays[0].mark);
    EventsShift(g, plays, k);
  }

  /**
   * A removal of entry r reported at message k was reported as a fade at
   * some message j <= k with no removal of r from j up to k, unless r was
   * already flagged before the stream began and not removed before k.
   */
  lemma {:induction false} RemovedWasFadedFrom(g: Game, plays: seq<Move>, k: nat, r: Move)
    requires Consistent(g) && k < |plays|
    requires Events(g, plays)[k].Some? && Events(g, plays)[k].value.removed == Some(r)
    ensures FadeReported(Events(g, plays), k, r) || FlaggedBefore(g, Events(g, plays), k, r)
    decreases k
  {
    if k == 0 {
      RemovedAtStart(g, plays, r);
    } else {
      RemovedInTail(g, plays, k, r);
      RemovedWasFadedFrom(Apply(g, plays[0].index, plays[0].mark).game, plays[1..], k - 1, r);
      RemovedStep(g, plays, k, r);
    }
  }

  /**
   * From a fresh or reset room (no cell flagged), every reported removal
   * was preceded by, or coincides with, a fade report of the same entry,
   * and no message between that report and the removal removed the entry.
   */
  lemma RemovedWasFaded(g: Game, plays: seq<Move>, k: nat)
    requires Consistent(g) && forall c :: !Flagged(g.faded, c)
    requires k < |plays| && Events(g, plays)[k].Some? && Events(g, plays)[k].value.removed.Some?
    ensures var evs := Events(g, plays);
      exists j :: 0 <= j <= k && evs[j].Some? && evs[j].value.faded == evs[k].value.removed &&
        forall l :: j <= l < k && evs[l].Some? ==> evs[l].value.removed != evs[k].value.removed
  {
    RemovedWasFadedFrom(g, plays, k, Events(g, plays)[k].value.removed.value);
  }

  /** A message that changes a room's game: a "move" or a reset (manual or deferred). */
  datatype Message = MoveMessage(index: Cell, mark: Mark) | ResetMessage

  /** The game after a room has handled one message. */
  function Handle(g: Game, msg: Message): (r: Game)
    requires |g.board| == 9
    ensures |r.board| == 9
  {
    match msg
    case MoveMessage(i, m) => Apply(g, i, m).game
    case ResetMessage => Cleared(g)
  }

  /** The game after a room has handled `msgs` in order. */
  function Run(g: Game, msgs: seq<Message>): (r: Game)
    requires |g.board| == 9
    ensures |r.board| == 9
    decreases |msgs|
  {
    if msgs == [] then g else Run(Handle(g, msgs[0]), msgs[1..])
  }

  /** Every room reachable from a consistent one (a new room, say) by moves and resets is consistent. */
  lemma {:induction false} RunKeepsConsistent(g: Game, msgs: seq<Message>)
    requires Consistent(g)
    ensures Consistent(Run(g, msgs))
    decreases |msgs|
  {
    if msgs != [] {
      match msgs[0]
      case MoveMessage(i, m) =>
        ApplyKeepsConsistent(g, i, m);
        RunKeepsConsistent(Apply(g, i, m).game, msgs[1..]);
      case ResetMessage =>
        ClearedRule(g);
        RunKeepsConsistent(Cleared(g), msgs[1..]);
    }
  }

  /** Neither mark's score ever falls: moves only raise it and resets keep it. */
  lemma {:induction false} ScoreNeverFalls(g: Game, msgs: seq<Message>)
    requires |g.board| == 9
    ensures Run(g, msgs).score.x >= g.score.x && Run(g, msgs).score.o >= g.score.o
    decreases |msgs|
  {
    if msgs != [] {
      if msgs[0].MoveMessage? && g.board[msgs[0].index].None? {
        SettleRule(g, msgs[0].index, msgs[0].mark);
      }
      ScoreNeverFalls(Handle(g, msgs[0]), msgs[1..]);
    }
  }
}
