/**
 * The playing field of Infinity Tic Tac Toe: the two marks, the nine cells,
 * the table of eight winning triples and the search for the first triple
 * that wins while ignoring faded cells (server.js, `winningCombos` and
 * `getWinningCombo`).
 */
module Board {

  datatype Option<T> = None | Some(value: T)

  /** The two marks a player can place ("X" and "O"). */
  datatype Mark = X | O

  /** The mark of the other player; the turn marker flips to it after a move. */
  function Other(m: Mark): (r: Mark)
    ensures r != m
  {
    if m == X then O else X
  }

  /** A board position, 0..8 in row-major order. */
  type Cell = i: int | 0 <= i < 9

  /** A cell holds nothing (`null`) or a mark. */
  type Grid = seq<Option<Mark>>

  /** Per-cell fade flags. A missing key reads as "not faded", as `!faded[i]` does on an absent property. */
  type FadeFlags = map<Cell, bool>

  predicate Flagged(faded: FadeFlags, c: Cell)
  {
    c in faded && faded[c]
  }

  datatype Triple = Triple(a: Cell, b: Cell, c: Cell)

  /** The eight winning triples in declaration order: rows, columns, diagonals. */
  const COMBOS: seq<Triple> := [
    Triple(0, 1, 2),
    Triple(3, 4, 5),
    Triple(6, 7, 8),
    Triple(0, 3, 6),
    Triple(1, 4, 7),
    Triple(2, 5, 8),
    Triple(0, 4, 8),
    Triple(2, 4, 6)
  ]

  /** The predicate `find` applies: three equal non-empty cells, none of them flagged faded. */
  predicate Wins(board: Grid, faded: FadeFlags, t: Triple)
    requires |board| == 9
  {
    board[t.a].Some? && board[t.a] == board[t.b] && board[t.b] == board[t.c] &&
    !Flagged(faded, t.a) && !Flagged(faded, t.b) && !Flagged(faded, t.c)
  }

  /** `find` over a list of triples: the first one that wins, None when none does. */
  function FirstWin(board: Grid, faded: FadeFlags, ts: seq<Triple>): (r: Option<Triple>)
    requires |board| == 9
    ensures r.Some? ==> r.value in ts && Wins(board, faded, r.value)
    decreases |ts|
  {
    if ts == [] then None
    else if Wins(board, faded, ts[0]) then Some(ts[0])
    else FirstWin(board, faded, ts[1..])
  }

  /** `getWinningCombo`: the search over the eight triples in declaration order; `|| null` is None. */
  function WinningCombo(board: Grid, faded: FadeFlags): (r: Option<Triple>)
    requires |board| == 9
    ensures r.Some? ==> r.value in COMBOS && Wins(board, faded, r.value)
  {
    FirstWin(board, faded, COMBOS)
  }

  /**
   * The search returns a winning triple at some position k of the list with
   * no winning triple before k, and returns None exactly when no triple of
   * the list wins.
   */
  lemma {:induction false} FirstWinSpec(board: Grid, faded: FadeFlags, ts: seq<Triple>)
    requires |board| == 9
    ensures var r := FirstWin(board, faded, ts);
      (r.Some? ==> exists k :: 0 <= k < |ts| && ts[k] == r.value && Wins(board, faded, ts[k]) &&
                               forall j :: 0 <= j < k ==> !Wins(board, faded, ts[j])) &&
      (r.None? <==> forall t :: t in ts ==> !Wins(board, faded, t))
    decreases |ts|
  {
    if ts == [] {
    } else if Wins(board, faded, ts[0]) {
      assert ts[0] in ts;
    } else {
      var rest := ts[1..];
      FirstWinSpec(board, faded, rest);
      var r := FirstWin(board, faded, ts);
      assert r == FirstWin(board, faded, rest);
      if r.Some? {
        var k :| 0 <= k < |rest| && rest[k] == r.value && Wins(board, faded, rest[k]) &&
                 forall j :: 0 <= j < k ==> !Wins(board, faded, rest[j]);
        assert ts[k + 1] == r.value;
        forall j | 0 <= j < k + 1 ensures !Wins(board, faded, ts[j]) {
          if j > 0 {
            assert ts[j] == rest[j - 1];
          }
        }
      }
      assert forall t :: t in ts <==> t == ts[0] || t in rest;
    }
  }

  /**
   * `getWinningCombo` returns a triple whose three cells hold the same mark
   * and none of which is faded, with no earlier triple in declaration order
   * winning; it returns None exactly when no triple wins.
   */
  lemma WinningComboSpec(board: Grid, faded: FadeFlags)
    requires |board| == 9
    ensures var r := WinningCombo(board, faded);
      (r.Some? ==> Wins(board, faded, r.value) &&
                   exists k :: 0 <= k < |COMBOS| && COMBOS[k] == r.value &&
                               forall j :: 0 <= j < k ==> !Wins(board, faded, COMBOS[j])) &&
      (r.None? <==> forall t :: t in COMBOS ==> !Wins(board, faded, t))
  {
    FirstWinSpec(board, faded, COMBOS);
  }
}
