/**
 * Concrete positions, worked through the model: the empty board, a row
 * won by X, a drawn full board, and a position where X can win at once
 * and the search picks that move.
 */
module Scenarios {
  import opened TicTacToe
  import opened Search
  import Engine

  /** On the empty board X moves first. */
  lemma EmptyBoardTurn()
    ensures Turn(Initial()) == Ok(X)
  {
    IsInitialIff(Initial());
  }

  /** The empty board is not over: nobody has won and a cell is free. */
  lemma EmptyBoardNotOver()
    ensures Winner(Initial()) == None && !IsTerminal(Initial())
  {
    var b := Initial();
    assert !Full(b) by {
      assert b[0][0] == Empty;
    }
    WinnerSpec(b, Empty);
  }

  /** All nine cells are legal on the empty board, listed from (0, 0) to (2, 2). */
  lemma EmptyBoardMoves()
    ensures |EmptyCells(Initial())| == 9
    ensures forall p | 0 <= p < 9 :: EmptyCells(Initial())[p] == Move(p / 3, p % 3)
  {
    var b := Initial();
    EmptyCellsSpec(b);
    var acts := EmptyCells(b);
    forall p | 0 <= p < 9 ensures acts[p] == Move(p / 3, p % 3) {
      KeysOfAllCells(acts, p);
      KeyInjective(acts[p], p);
    }
  }

  /** X has completed the top row; O has two in the middle row. */
  const TopRow: Board := [[X, X, X], [O, O, Empty], [Empty, Empty, Empty]]

  /** The top row wins for X: the game is over, worth 1, for either side to evaluate. */
  lemma TopRowWon()
    ensures Winner(TopRow) == Some(X) && IsTerminal(TopRow) && Utility(TopRow) == 1
    ensures Playable(TopRow) && MinVal(TopRow) == 1 && MaxVal(TopRow) == 1
  {
    assert Complete(TopRow, Lines[2], X);
    WinnerSpec(TopRow, X);
    BoardCount(TopRow, X);
    BoardCount(TopRow, O);
    TurnByCounts(TopRow);
  }

  /** A full board without a complete line. */
  const Drawn: Board := [[X, O, X], [X, O, O], [O, X, X]]

  /** The full board without a line is a draw: over, with nobody winning, worth 0. */
  lemma DrawnOver()
    ensures Winner(Drawn) == None && Full(Drawn) && IsTerminal(Drawn) && Utility(Drawn) == 0
  {
    WinnerSpec(Drawn, Empty);
    BoardCount(Drawn, Empty);
    TerminalSpec(Drawn);
  }

  /** X to move, with (0, 2) completing the top row. */
  const XToWin: Board := [[X, X, Empty], [O, O, Empty], [X, O, Empty]]

  /** It is X's turn and the game is not over. */
  lemma XToWinOpen()
    ensures Turn(XToWin) == Ok(X) && !IsTerminal(XToWin)
  {
    var b := XToWin;
    BoardCount(b, X);
    BoardCount(b, O);
    TurnByCounts(b);
    assert !Full(b) by {
      assert b[0][2] == Empty;
    }
    WinnerSpec(b, Empty);
  }

  /** The legal moves are the right-hand column, top to bottom; the winning cell comes first. */
  lemma XToWinMoves()
    ensures EmptyCells(XToWin) == [Move(0, 2), Move(1, 2), Move(2, 2)]
  {
    var b := XToWin;
    assert EmptyBefore(b, 1) == [];
    assert EmptyBefore(b, 2) == [];
    assert EmptyBefore(b, 3) == [Move(0, 2)];
    assert EmptyBefore(b, 4) == [Move(0, 2)];
    assert EmptyBefore(b, 5) == [Move(0, 2)];
    assert EmptyBefore(b, 6) == [Move(0, 2), Move(1, 2)];
    assert EmptyBefore(b, 7) == [Move(0, 2), Move(1, 2)];
    assert EmptyBefore(b, 8) == [Move(0, 2), Move(1, 2)];
  }

  /** Playing the winning cell completes the top row for X. */
  lemma XToWinWins()
    ensures Playable(XToWin) && Free(XToWin, Move(0, 2))
    ensures Winner(Place(XToWin, Move(0, 2))) == Some(X)
  {
    XToWinOpen();
    var w := Place(XToWin, Move(0, 2));
    assert Complete(w, Lines[2], X);
    WinnerSpec(w, X);
  }

  /**
   * The search picks the winning cell: it is the first best move, the only
   * one, and the position is worth 1 to X.
   */
  lemma XToWinSearch()
    ensures Playable(XToWin) && FirstBest(XToWin, 0)
    ensures forall k: nat :: FirstBest(XToWin, k) ==> k == 0
    ensures MaxVal(XToWin) == 1
  {
    var b := XToWin;
    XToWinOpen();
    XToWinMoves();
    XToWinWins();
    var w := Place(b, Move(0, 2));
    assert IsTerminal(w) && MinVal(w) == Utility(w) == 1;
    var vs := Scores(b);
    assert vs[0] == MinVal(w) by {
      ChildMinValsAt(b, EmptyCells(b), 0);
    }
    assert forall j | 0 <= j < |vs| :: !Better(true, vs[j], vs[0]);
    assert FirstBestIn(vs, 0, true);
    forall k: nat | FirstBest(b, k) ensures k == 0 {
      FirstBestUnique(vs, true, 0, k);
    }
    FirstBestValue(b, 0);
  }

  /** Run on that position, the search returns the winning cell, whatever the opening parameter. */
  method SearchTakesWin(opening: Move) returns (r: Checked<Option<Move>>)
    ensures r == Ok(Some(Move(0, 2)))
  {
    r := Engine.Minimax(XToWin, opening);
    assert XToWin != Initial() by {
      assert XToWin[0][0] != Initial()[0][0];
    }
    XToWinOpen();
    XToWinMoves();
    XToWinSearch();
  }

  /** How often `c` occurs in a row of three, cell by cell. */
  lemma RowOccurrences(s: seq<Cell>, c: Cell)
    requires |s| == 3
    ensures Occurrences(s, c) == Tally(s[0], c) + Tally(s[1], c) + Tally(s[2], c)
  {
    assert s[..2][..1] == s[..1];
    assert s[..1][..0] == [];
    assert Occurrences(s[..1], c) == Tally(s[0], c);
    assert Occurrences(s[..2], c) == Occurrences(s[..1], c) + Tally(s[1], c);
  }

  /** How often `c` occurs on a board, cell by cell. */
  lemma BoardCount(b: Board, c: Cell)
    ensures Count(b, c) ==
              Tally(b[0][0], c) + Tally(b[0][1], c) + Tally(b[0][2], c) +
              Tally(b[1][0], c) + Tally(b[1][1], c) + Tally(b[1][2], c) +
              Tally(b[2][0], c) + Tally(b[2][1], c) + Tally(b[2][2], c)
  {
    OccurrencesConcat(b[0], b[1], c);
    OccurrencesConcat(b[0] + b[1], b[2], c);
    RowOccurrences(b[0], c);
    RowOccurrences(b[1], c);
    RowOccurrences(b[2], c);
  }

  /**
   * Nine moves in strictly increasing `Key` order that cover all nine
   * cells list the cell with key p at position p.
   */
  lemma KeysOfAllCells(acts: seq<Move>, p: nat)
    requires |acts| == 9 && p < 9
    requires forall q, r | 0 <= q < r < |acts| :: Key(acts[q]) < Key(acts[r])
    ensures Key(acts[p]) == p
  {
    var q := 0;
    while q < p
      invariant q <= p && Key(acts[q]) >= q
    {
      q := q + 1;
    }
    var r := 8;
    while r > p
      invariant p <= r && Key(acts[r]) <= r
    {
      r := r - 1;
    }
  }
}
