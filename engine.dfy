/**
 * The operations of the game as the program runs them: counting loops,
 * list building, copying a board and overwriting one cell, scanning with
 * early return, and the minimax search loops. Each method is proved to
 * compute the corresponding function of `TicTacToe` or `Search`.
 */
module Engine {
  import opened TicTacToe
  import opened Search

  /** `player`: X on the initial board, else decided by counting marks row by row. */
  method Player(b: Board) returns (r: Checked<Cell>)
    ensures r == Turn(b)
  {
    IsInitialIff(b);
    if b == Initial() {
      return Ok(X);
    }
    var numOfX, numOfO := 0, 0;
    for i := 0 to 3
      invariant numOfX == Occurrences(Cells(b)[..3 * i], X)
      invariant numOfO == Occurrences(Cells(b)[..3 * i], O)
    {
      CellsPrefix(b, i);
      OccurrencesConcat(Cells(b)[..3 * i], b[i], X);
      OccurrencesConcat(Cells(b)[..3 * i], b[i], O);
      numOfX := numOfX + Occurrences(b[i], X);
      numOfO := numOfO + Occurrences(b[i], O);
    }
    assert Cells(b)[..9] == Cells(b);
    if numOfX > numOfO {
      r := Ok(O);
    } else if numOfX == numOfO {
      r := Ok(X);
    } else {
      r := Err(InvalidState);
    }
  }

  /** `actions`: the free cells, collected row by row, column by column. */
  method Actions(b: Board) returns (actions: seq<Move>)
    ensures actions == EmptyCells(b)
  {
    actions := [];
    for row := 0 to 3
      invariant actions == EmptyBefore(b, 3 * row)
    {
      for column := 0 to 3
        invariant actions == EmptyBefore(b, 3 * row + column)
      {
        assert (3 * row + column) / 3 == row && (3 * row + column) % 3 == column;
        if b[row][column] == Empty {
          actions := actions + [Move(row, column)];
        }
      }
    }
  }

  /**
   * `result`: a copy of the board with the mover's mark on the target; the
   * turn is computed first, then an occupied target is refused.
   */
  method Result(b: Board, action: Move) returns (r: Checked<Board>)
    ensures r == Apply(b, action)
  {
    var newBoard := b;
    var p := Player(b);
    if p == Ok(X) {
      if b[action.row][action.col] != Empty {
        return Err(IllegalMove);
      }
      newBoard := newBoard[action.row := newBoard[action.row][action.col := X]];
    } else if p == Ok(O) {
      if b[action.row][action.col] != Empty {
        return Err(IllegalMove);
      }
      newBoard := newBoard[action.row := newBoard[action.row][action.col := O]];
    } else {
      TurnByCounts(b);
      return Err(p.error);
    }
    r := Ok(newBoard);
  }

  /** `terminal`: true if there is a winner, otherwise false at the first Empty cell. */
  method Terminal(b: Board) returns (over: bool)
    ensures over == IsTerminal(b)
  {
    WinnerSpec(b, Empty);
    if Winner(b) == Some(X) || Winner(b) == Some(O) {
      return true;
    }
    for i := 0 to 3
      invariant forall r: Index, c: Index | r < i :: b[r][c] != Empty
    {
      for j := 0 to 3
        invariant forall r: Index, c: Index | r < i || (r == i && c < j) :: b[r][c] != Empty
      {
        if b[i][j] == Empty {
          return false;
        }
      }
    }
    return true;
  }

  /** `Min_Value`: the utility of a terminal board, else the least `Max_Value` over the actions. */
  method MinValue(b: Board) returns (value: int)
    requires Playable(b)
    ensures value == MinVal(b)
    decreases Count(b, Empty)
  {
    var over := Terminal(b);
    if over {
      return Utility(b);
    }
    value := 2;
    var actions := Actions(b);
    ghost var vs := ChildMaxVals(b, actions);
    for i := 0 to |actions|
      invariant value == MinOf(vs[..i])
    {
      var next := Result(b, actions[i]);
      assert next == Ok(Place(b, actions[i]));
      var v := MaxValue(next.value);
      FoldStep(vs, i);
      value := Min(value, v);
    }
    assert vs[..|actions|] == vs;
  }

  /** `Max_Value`: the utility of a terminal board, else the greatest `Min_Value` over the actions. */
  method MaxValue(b: Board) returns (value: int)
    requires Playable(b)
    ensures value == MaxVal(b)
    decreases Count(b, Empty)
  {
    var over := Terminal(b);
    if over {
      return Utility(b);
    }
    value := -2;
    var actions := Actions(b);
    ghost var vs := ChildMinVals(b, actions);
    for i := 0 to |actions|
      invariant value == MaxOf(vs[..i])
    {
      var next := Result(b, actions[i]);
      assert next == Ok(Place(b, actions[i]));
      var v := MinValue(next.value);
      FoldStep(vs, i);
      value := Max(value, v);
    }
    assert vs[..|actions|] == vs;
  }

  /**
   * `minimax`: the opening move on the initial board (drawn at random by the
   * caller), nothing on a terminal board, the turn's error on a board with
   * more O than X, and otherwise the first legal move in row-major order
   * with the best score for the mover.
   */
  method Minimax(b: Board, opening: Move) returns (r: Checked<Option<Move>>)
    ensures b == Initial() ==> r == Ok(Some(opening))
    ensures b != Initial() && IsTerminal(b) ==> r == Ok(None)
    ensures b != Initial() && !IsTerminal(b) && !Playable(b) ==> r == Err(InvalidState)
    ensures b != Initial() && !IsTerminal(b) && Playable(b) ==>
              exists k :: 0 <= k < |EmptyCells(b)| && FirstBest(b, k) && r == Ok(Some(EmptyCells(b)[k]))
  {
    if b == Initial() {
      return Ok(Some(opening));
    }
    var bestAction: Option<Move> := None;
    var over := Terminal(b);
    if over {
      return Ok(bestAction);
    }
    var p := Player(b);
    if p.Err? {
      TurnByCounts(b);
      return Err(p.error);
    }
    var actions := Actions(b);
    assert |actions| > 0 by {
      TerminalSpec(b);
    }
    ghost var k: nat := 0;
    ghost var vals: seq<int> := [];
    if p == Ok(X) {
      ghost var vs := ChildMinVals(b, actions);
      var optimalValue := -2;
      for i := 0 to |actions|
        invariant |vals| == i && PrefixOf(vals, vs)
        invariant i == 0 ==> bestAction == None && optimalValue == -2 && k == 0
        invariant i > 0 ==> FirstBestIn(vals, k, true) && bestAction == Some(actions[k]) && optimalValue == vals[k]
      {
        var next := Result(b, actions[i]);
        var value := MinValue(next.value);
        assert vs[i] == value;
        PrefixOfStep(vals, vs, value);
        FirstBestStep(vals, k, value, true);
        if value > optimalValue {
          optimalValue := value;
          bestAction := Some(actions[i]);
          k := i;
        }
        vals := vals + [value];
      }
      PrefixOfWhole(vals, vs);
    } else {
      ghost var vs := ChildMaxVals(b, actions);
      var optimalValue := 2;
      for i := 0 to |actions|
        invariant |vals| == i && PrefixOf(vals, vs)
        invariant i == 0 ==> bestAction == None && optimalValue == 2 && k == 0
        invariant i > 0 ==> FirstBestIn(vals, k, false) && bestAction == Some(actions[k]) && optimalValue == vals[k]
      {
        var next := Result(b, actions[i]);
        var value := MaxValue(next.value);
        assert vs[i] == value;
        PrefixOfStep(vals, vs, value);
        FirstBestStep(vals, k, value, false);
        if value < optimalValue {
          optimalValue := value;
          bestAction := Some(actions[i]);
          k := i;
        }
        vals := vals + [value];
      }
      PrefixOfWhole(vals, vs);
    }
    FirstBestOfScores(b, vals, k);
    r := Ok(bestAction);
  }
}
