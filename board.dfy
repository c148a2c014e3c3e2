/**
 * The board model of a 3x3 tic-tac-toe game: cells, boards, moves, whose turn
 * it is, the legal moves, applying a move, the winner, terminal boards and the
 * utility of a board from X's point of view.
 */
module TicTacToe {

  /** A cell holds nothing, X's mark or O's mark. */
  datatype Cell = Empty | X | O

  /** A 3x3 grid of cells, indexed row first. */
  type Board = b: seq<seq<Cell>> | |b| == 3 && |b[0]| == 3 && |b[1]| == 3 && |b[2]| == 3
    witness [[Empty, Empty, Empty], [Empty, Empty, Empty], [Empty, Empty, Empty]]

  /** A row or column coordinate. */
  type Index = i: int | 0 <= i < 3

  /** An action: the (row, column) of the cell to mark. */
  datatype Move = Move(row: Index, col: Index)

  datatype Error = InvalidState | IllegalMove

  datatype Option<T> = None | Some(value: T)

  /** A value, or the error the program raises with `ValueError` instead. */
  datatype Checked<T> = Ok(value: T) | Err(error: Error)

  /** The position of a move in row-major order. */
  function Key(m: Move): nat
  {
    3 * m.row + m.col
  }

  /** The cell a move addresses is free. */
  predicate Free(b: Board, m: Move)
  {
    b[m.row][m.col] == Empty
  }

  /** No cell of the board is Empty. */
  predicate Full(b: Board)
  {
    forall i: Index, j: Index :: b[i][j] != Empty
  }

  /** The starting board: every cell Empty. */
  function Initial(): (r: Board)
    ensures Count(r, Empty) == 9
    ensures Count(r, X) == 0 && Count(r, O) == 0
  {
    var r := [[Empty, Empty, Empty], [Empty, Empty, Empty], [Empty, Empty, Empty]];
    OccurrencesUniform(Cells(r), Empty);
    OccurrencesUniform(Cells(r), X);
    OccurrencesUniform(Cells(r), O);
    r
  }

  // ---------------------------------------------------------------------
  // Counting marks

  /** 1 when the cell holds `c`, else 0. */
  function Tally(x: Cell, c: Cell): nat
  {
    if x == c then 1 else 0
  }

  /** The number of cells of `s` equal to `c` (a list's `count`). */
  function Occurrences(s: seq<Cell>, c: Cell): nat
  {
    if s == [] then 0
    else Occurrences(s[..|s| - 1], c) + Tally(s[|s| - 1], c)
  }

  /** A sequence made of one value counts that value at every position and nothing else. */
  lemma {:induction false} OccurrencesUniform(s: seq<Cell>, c: Cell)
    ensures (forall k | 0 <= k < |s| :: s[k] == c) ==> Occurrences(s, c) == |s|
    ensures (forall k | 0 <= k < |s| :: s[k] != c) ==> Occurrences(s, c) == 0
  {
    if s != [] {
      OccurrencesUniform(s[..|s| - 1], c);
    }
  }

  /** The cells of a board in row-major order. */
  function Cells(b: Board): seq<Cell>
  {
    b[0] + b[1] + b[2]
  }

  /** The number of cells of the board holding `c`. */
  function Count(b: Board, c: Cell): nat
  {
    Occurrences(Cells(b), c)
  }

  lemma CellsAt(b: Board, i: Index, j: Index)
    ensures |Cells(b)| == 9 && Cells(b)[3 * i + j] == b[i][j]
  {
  }

  /** The first `i` rows of the flattened board are the rows themselves. */
  lemma CellsPrefix(b: Board, i: nat)
    requires i < 3
    ensures Cells(b)[..3 * (i + 1)] == Cells(b)[..3 * i] + b[i]
  {
    if i == 0 {
      assert Cells(b)[..3] == b[0];
    } else if i == 1 {
      assert Cells(b)[..3] == b[0];
      assert Cells(b)[..6] == b[0] + b[1];
    } else {
      assert Cells(b)[..6] == b[0] + b[1];
      assert Cells(b)[..9] == b[0] + b[1] + b[2];
    }
  }

  lemma {:induction false} OccurrencesConcat(s: seq<Cell>, t: seq<Cell>, c: Cell)
    ensures Occurrences(s + t, c) == Occurrences(s, c) + Occurrences(t, c)
    decreases |t|
  {
    if t != [] {
      assert (s + t)[..|s + t| - 1] == s + t[..|t| - 1];
      OccurrencesConcat(s, t[..|t| - 1], c);
    } else {
      assert s + t == s;
    }
  }

  /** Overwriting one element changes the count by what left and what came in. */
  lemma {:induction false} OccurrencesUpdate(s: seq<Cell>, p: nat, v: Cell, c: Cell)
    requires p < |s|
    ensures Occurrences(s[p := v], c) + Tally(s[p], c) == Occurrences(s, c) + Tally(v, c)
    decreases |s|
  {
    var n := |s| - 1;
    if p == n {
      assert s[p := v][..n] == s[..n];
    } else {
      assert s[p := v][..n] == s[..n][p := v];
      OccurrencesUpdate(s[..n], p, v, c);
    }
  }

  /** The board with cell (i, j) set to v. */
  function Set(b: Board, i: Index, j: Index, v: Cell): Board
  {
    b[i := b[i][j := v]]
  }

  lemma CellsSet(b: Board, i: Index, j: Index, v: Cell)
    ensures Cells(Set(b, i, j, v)) == Cells(b)[3 * i + j := v]
  {
  }

  /** Setting one cell moves exactly one unit of count from its old to its new content. */
  lemma CountSet(b: Board, i: Index, j: Index, v: Cell, c: Cell)
    ensures Count(Set(b, i, j, v), c) + Tally(b[i][j], c) == Count(b, c) + Tally(v, c)
  {
    CellsSet(b, i, j, v);
    CellsAt(b, i, j);
    OccurrencesUpdate(Cells(b), 3 * i + j, v, c);
  }

  // ---------------------------------------------------------------------
  // Whose turn

  /** The board equals the initial board, compared cell by cell. */
  predicate IsInitial(b: Board)
  {
    forall i: Index, j: Index :: b[i][j] == Empty
  }

  lemma IsInitialIff(b: Board)
    ensures IsInitial(b) <==> b == Initial()
  {
    if IsInitial(b) {
      assert b[0] == Initial()[0] && b[1] == Initial()[1] && b[2] == Initial()[2];
    }
  }

  /**
   * Whose turn it is: X on the initial board; otherwise O when X has more
   * marks, X when the counts are equal, and an error when O has more marks.
   */
  function Turn(b: Board): (r: Checked<Cell>)
    ensures r.Ok? ==> r.value == X || r.value == O
    ensures r.Err? ==> r.error == InvalidState
  {
    if IsInitial(b) then Ok(X)
    else if Count(b, X) > Count(b, O) then Ok(O)
    else if Count(b, X) == Count(b, O) then Ok(X)
    else Err(InvalidState)
  }

  /** The turn can be computed: what `player` demands of a board. */
  predicate Playable(b: Board)
  {
    Turn(b).Ok?
  }

  /** The turn depends on the counts only: both directions of each case. */
  lemma TurnByCounts(b: Board)
    ensures Turn(b) == Ok(X) <==> Count(b, X) == Count(b, O)
    ensures Turn(b) == Ok(O) <==> Count(b, X) > Count(b, O)
    ensures Turn(b) == Err(InvalidState) <==> Count(b, X) < Count(b, O)
    ensures Playable(b) <==> Count(b, O) <= Count(b, X)
  {
    if IsInitial(b) {
      IsInitialIff(b);
    }
  }

  /** The initial-board special case of `Turn` agrees with the count rule. */
  lemma InitialCaseRedundant(b: Board)
    ensures Turn(b) == (if Count(b, X) > Count(b, O) then Ok(O)
                        else if Count(b, X) == Count(b, O) then Ok(X)
                        else Err(InvalidState))
  {
    TurnByCounts(b);
  }

  // ---------------------------------------------------------------------
  // Applying a move

  /** The mover's mark placed on a free cell of a playable board. */
  function Place(b: Board, m: Move): (r: Board)
    requires Playable(b) && Free(b, m)
    ensures Playable(r)
    ensures Count(r, Empty) == Count(b, Empty) - 1
  {
    var r := Set(b, m.row, m.col, Turn(b).value);
    CountSet(b, m.row, m.col, Turn(b).value, Empty);
    CountSet(b, m.row, m.col, Turn(b).value, X);
    CountSet(b, m.row, m.col, Turn(b).value, O);
    TurnByCounts(b);
    TurnByCounts(r);
    r
  }

  /**
   * The board a move leads to: the turn is computed first (its error
   * propagates), then an occupied target is refused.
   */
  function Apply(b: Board, m: Move): (r: Checked<Board>)
    ensures r.Ok? ==> Playable(r.value) && Count(r.value, Empty) + 1 == Count(b, Empty)
    ensures r.Err? ==> (r.error == IllegalMove <==> Playable(b))
  {
    if !Playable(b) then Err(Turn(b).error)
    else if !Free(b, m) then Err(IllegalMove)
    else Ok(Place(b, m))
  }

  /** What applying a move does: the error cases, the mover's mark, and nothing else changes. */
  lemma ApplySpec(b: Board, m: Move)
    ensures Apply(b, m) == Err(InvalidState) <==> Count(b, X) < Count(b, O)
    ensures Apply(b, m) == Err(IllegalMove) <==> Count(b, O) <= Count(b, X) && b[m.row][m.col] != Empty
    ensures Apply(b, m).Ok? <==> Count(b, O) <= Count(b, X) && b[m.row][m.col] == Empty
    ensures Apply(b, m).Ok? ==>
              var r := Apply(b, m).value;
              (r[m.row][m.col] == X || r[m.row][m.col] == O) &&
              Turn(b) == Ok(r[m.row][m.col]) &&
              forall i: Index, j: Index :: (i, j) != (m.row, m.col) ==> r[i][j] == b[i][j]
  {
    TurnByCounts(b);
  }

  /** The count relation kept by legal play: X leads O by zero or one mark. */
  predicate Balanced(b: Board)
  {
    Count(b, X) == Count(b, O) || Count(b, X) == Count(b, O) + 1
  }

  function Opponent(p: Cell): Cell
  {
    if p == X then O else if p == O then X else Empty
  }

  /** A move on a balanced board keeps it balanced, and the turn passes to the other mark. */
  lemma PlaceAlternates(b: Board, m: Move)
    requires Balanced(b) && Free(b, m)
    ensures Playable(b)
    ensures Balanced(Place(b, m))
    ensures Turn(Place(b, m)) == Ok(Opponent(Turn(b).value))
    ensures Count(Place(b, m), Empty) == Count(b, Empty) - 1
  {
    TurnByCounts(b);
    var p := Turn(b).value;
    var r := Place(b, m);
    CountSet(b, m.row, m.col, p, X);
    CountSet(b, m.row, m.col, p, O);
    TurnByCounts(r);
  }

  // ---------------------------------------------------------------------
  // Legal moves

  /** The free cells with row-major position below `k`, in row-major order. */
  function EmptyBefore(b: Board, k: nat): (r: seq<Move>)
    requires k <= 9
    ensures |r| <= k
  {
    if k == 0 then []
    else
      var m := Move((k - 1) / 3, (k - 1) % 3);
      EmptyBefore(b, k - 1) + (if Free(b, m) then [m] else [])
  }

  /** All free cells in row-major order. */
  function EmptyCells(b: Board): (r: seq<Move>)
    ensures forall p | 0 <= p < |r| :: Free(b, r[p])
  {
    EmptyBeforeSpec(b, 9);
    EmptyBefore(b, 9)
  }

  lemma KeyInjective(m: Move, n: nat)
    requires n < 9
    ensures Key(m) == n <==> m == Move(n / 3, n % 3)
  {
  }

  /** The scan up to position k lists exactly the free cells below k. */
  lemma {:induction false} EmptyBeforeMembers(b: Board, k: nat)
    requires k <= 9
    ensures forall m :: m in EmptyBefore(b, k) <==> Key(m) < k && Free(b, m)
  {
    if k > 0 {
      EmptyBeforeMembers(b, k - 1);
      forall n: Move
        ensures n in EmptyBefore(b, k) <==> Key(n) < k && Free(b, n)
      {
        KeyInjective(n, k - 1);
      }
    }
  }

  /** The scan up to position k finds one move per Empty cell below k. */
  lemma {:induction false} EmptyBeforeLength(b: Board, k: nat)
    requires k <= 9
    ensures |EmptyBefore(b, k)| == Occurrences(Cells(b)[..k], Empty)
  {
    if k > 0 {
      var m := Move((k - 1) / 3, (k - 1) % 3);
      EmptyBeforeLength(b, k - 1);
      CellsAt(b, m.row, m.col);
      assert Cells(b)[..k][..k - 1] == Cells(b)[..k - 1];
    }
  }

  /**
   * The scan up to position k lists the free cells below k, in strictly
   * increasing row-major position, one per Empty cell among them.
   */
  lemma {:induction false} EmptyBeforeSpec(b: Board, k: nat)
    requires k <= 9
    ensures forall m :: m in EmptyBefore(b, k) <==> Key(m) < k && Free(b, m)
    ensures forall p, q :: 0 <= p < q < |EmptyBefore(b, k)| ==>
              Key(EmptyBefore(b, k)[p]) < Key(EmptyBefore(b, k)[q])
    ensures |EmptyBefore(b, k)| == Occurrences(Cells(b)[..k], Empty)
  {
    EmptyBeforeMembers(b, k);
    if k > 0 {
      var m := Move((k - 1) / 3, (k - 1) % 3);
      var e := EmptyBefore(b, k - 1);
      EmptyBeforeSpec(b, k - 1);
      if Free(b, m) {
        forall p | 0 <= p < |e| ensures Key(e[p]) < k - 1 {
          assert e[p] in e;
        }
        assert EmptyBefore(b, k) == e + [m];
      }
    }
    EmptyBeforeLength(b, k);
  }

  /**
   * The legal moves are exactly the free cells, each once, in strictly
   * increasing row-major order, and there are as many as Empty cells.
   */
  lemma EmptyCellsSpec(b: Board)
    ensures forall m :: m in EmptyCells(b) <==> Free(b, m)
    ensures forall p | 0 <= p < |EmptyCells(b)| :: Free(b, EmptyCells(b)[p])
    ensures forall p, q :: 0 <= p < q < |EmptyCells(b)| ==>
              Key(EmptyCells(b)[p]) < Key(EmptyCells(b)[q])
    ensures |EmptyCells(b)| == Count(b, Empty)
    ensures EmptyCells(b) == [] <==> Full(b)
  {
    EmptyBeforeSpec(b, 9);
    assert |EmptyCells(b)| == Count(b, Empty) by {
      assert Cells(b)[..9] == Cells(b);
    }
    assert EmptyCells(b) == [] <==> Full(b) by {
      if EmptyCells(b) != [] {
        assert EmptyCells(b)[0] in EmptyCells(b);
      }
      if !Full(b) {
        var i: Index, j: Index :| b[i][j] == Empty;
        assert Move(i, j) in EmptyCells(b);
      }
    }
  }

  /** No two positions of the legal-move list hold the same move. */
  lemma EmptyCellsDistinct(b: Board)
    ensures forall p, q :: 0 <= p < |EmptyCells(b)| && 0 <= q < |EmptyCells(b)| && p != q ==>
              EmptyCells(b)[p] != EmptyCells(b)[q]
  {
    EmptyCellsSpec(b);
    forall p, q | 0 <= p < |EmptyCells(b)| && 0 <= q < |EmptyCells(b)| && p != q
      ensures EmptyCells(b)[p] != EmptyCells(b)[q]
    {
      if p < q {
        assert Key(EmptyCells(b)[p]) < Key(EmptyCells(b)[q]);
      } else {
        assert Key(EmptyCells(b)[q]) < Key(EmptyCells(b)[p]);
      }
    }
  }

  // ---------------------------------------------------------------------
  // Winner, terminal, utility

  /** Three cells in a line. */
  datatype Line = Line(a: Move, b: Move, c: Move)

  /**
   * The eight lines in the order `winner` tests them: the 0,0-2,2 diagonal,
   * the 0,2-2,0 diagonal, rows 0 to 2, columns 0 to 2.
   */
  const Lines: seq<Line> := [
    Line(Move(0, 0), Move(1, 1), Move(2, 2)),
    Line(Move(0, 2), Move(1, 1), Move(2, 0)),
    Line(Move(0, 0), Move(0, 1), Move(0, 2)),
    Line(Move(1, 0), Move(1, 1), Move(1, 2)),
    Line(Move(2, 0), Move(2, 1), Move(2, 2)),
    Line(Move(0, 0), Move(1, 0), Move(2, 0)),
    Line(Move(0, 1), Move(1, 1), Move(2, 1)),
    Line(Move(0, 2), Move(1, 2), Move(2, 2))
  ]

  function At(b: Board, m: Move): Cell
  {
    b[m.row][m.col]
  }

  /** Every cell of line `l` holds `p`. */
  predicate Complete(b: Board, l: Line, p: Cell)
  {
    At(b, l.a) == At(b, l.b) == At(b, l.c) == p
  }

  /** The first of lines k..7 completed by X or (checked second) by O. */
  function WinnerFrom(b: Board, k: nat): (r: Option<Cell>)
    requires k <= |Lines|
    ensures r != Some(Empty)
    decreases |Lines| - k
  {
    if k == |Lines| then None
    else if Complete(b, Lines[k], X) then Some(X)
    else if Complete(b, Lines[k], O) then Some(O)
    else WinnerFrom(b, k + 1)
  }

  /** The first line completed by a mark, in the order of `Lines`, names the winner. */
  function Winner(b: Board): (r: Option<Cell>)
    ensures r != Some(Empty)
  {
    WinnerFrom(b, 0)
  }

  /** No mark completes any of the lines before position k. */
  predicate NoneCompleteBefore(b: Board, k: nat)
    requires k <= |Lines|
  {
    forall j | 0 <= j < k :: !Complete(b, Lines[j], X) && !Complete(b, Lines[j], O)
  }

  lemma {:induction false} WinnerFromSpec(b: Board, k: nat)
    requires k <= |Lines| && NoneCompleteBefore(b, k)
    ensures WinnerFrom(b, k).Some? ==>
              var p := WinnerFrom(b, k).value;
              (p == X || p == O) &&
              exists n :: k <= n < |Lines| && Complete(b, Lines[n], p) && NoneCompleteBefore(b, n)
    ensures WinnerFrom(b, k) == None <==> NoneCompleteBefore(b, |Lines|)
    decreases |Lines| - k
  {
    if k < |Lines| && !Complete(b, Lines[k], X) && !Complete(b, Lines[k], O) {
      WinnerFromSpec(b, k + 1);
    }
  }

  /**
   * `Winner` names a mark exactly when that mark completes a line and no
   * earlier line (diagonals, then rows, then columns) is complete for
   * either mark; it is None exactly when no line is complete.
   */
  lemma WinnerSpec(b: Board, p: Cell)
    ensures Winner(b) == Some(p) <==>
              (p == X || p == O) &&
              exists n :: 0 <= n < |Lines| && Complete(b, Lines[n], p) && NoneCompleteBefore(b, n)
    ensures Winner(b) == None <==> NoneCompleteBefore(b, |Lines|)
    ensures Winner(b) != Some(Empty)
  {
    WinnerFromSpec(b, 0);
  }

  /** The game is over: someone has won or no cell is Empty. */
  predicate IsTerminal(b: Board)
  {
    Winner(b).Some? || Full(b)
  }

  /** Terminal exactly when a winner exists or no legal move remains. */
  lemma TerminalSpec(b: Board)
    ensures IsTerminal(b) <==> Winner(b).Some? || EmptyCells(b) == []
    ensures IsTerminal(b) <==> Winner(b).Some? || Count(b, Empty) == 0
    ensures !IsTerminal(b) ==> |EmptyCells(b)| > 0
  {
    EmptyCellsSpec(b);
  }

  /** 1 when X has won, -1 when O has won, 0 otherwise. */
  function Utility(b: Board): (u: int)
    ensures -1 <= u <= 1
    ensures u == 1 <==> Winner(b) == Some(X)
    ensures u == -1 <==> Winner(b) == Some(O)
    ensures u == 0 <==> Winner(b) == None
  {
    WinnerSpec(b, Empty);
    if Winner(b) == Some(X) then 1
    else if Winner(b) == Some(O) then -1
    else 0
  }
}
