/**
 * The minimax values of boards and the move the search selects, as
 * functions: the specification the search methods of `Engine` are proved
 * against.
 */
module Search {
  import opened TicTacToe

  function Min(a: int, b: int): int
  {
    if a <= b then a else b
  }

  function Max(a: int, b: int): int
  {
    if a >= b then a else b
  }

  // ---------------------------------------------------------------------
  // Running minimum and maximum of a list of values

  /**
   * The running minimum of `vs`, folded left to right from the sentinel
   * 2, which stands for positive infinity among values in -1..1.
   */
  function MinOf(vs: seq<int>): (r: int)
    ensures r <= 2
  {
    if vs == [] then 2 else Min(MinOf(vs[..|vs| - 1]), vs[|vs| - 1])
  }

  /** The running maximum of `vs`, from the sentinel -2 (negative infinity). */
  function MaxOf(vs: seq<int>): (r: int)
    ensures r >= -2
  {
    if vs == [] then -2 else Max(MaxOf(vs[..|vs| - 1]), vs[|vs| - 1])
  }

  predicate InUnitRange(vs: seq<int>)
  {
    forall p | 0 <= p < |vs| :: -1 <= vs[p] <= 1
  }

  /** `MinOf` of a non-empty list is its least element: a lower bound that occurs in it. */
  lemma {:induction false} MinOfSpec(vs: seq<int>)
    ensures vs == [] ==> MinOf(vs) == 2
    ensures forall p | 0 <= p < |vs| :: MinOf(vs) <= vs[p]
    ensures vs != [] && InUnitRange(vs) ==>
              -1 <= MinOf(vs) <= 1 && exists p :: 0 <= p < |vs| && MinOf(vs) == vs[p]
  {
    if vs != [] {
      var n := |vs| - 1;
      var init := vs[..n];
      MinOfSpec(init);
      if n > 0 && InUnitRange(vs) {
        assert InUnitRange(init) by {
          forall q | 0 <= q < n ensures -1 <= init[q] <= 1 { assert init[q] == vs[q]; }
        }
        var p :| 0 <= p < n && MinOf(init) == init[p];
        if MinOf(vs) != vs[n] {
          assert MinOf(vs) == vs[p];
        }
      }
    }
  }

  /** `MaxOf` of a non-empty list is its greatest element. */
  lemma {:induction false} MaxOfSpec(vs: seq<int>)
    ensures vs == [] ==> MaxOf(vs) == -2
    ensures forall p | 0 <= p < |vs| :: vs[p] <= MaxOf(vs)
    ensures vs != [] && InUnitRange(vs) ==>
              -1 <= MaxOf(vs) <= 1 && exists p :: 0 <= p < |vs| && MaxOf(vs) == vs[p]
  {
    if vs != [] {
      var n := |vs| - 1;
      var init := vs[..n];
      MaxOfSpec(init);
      if n > 0 && InUnitRange(vs) {
        assert InUnitRange(init) by {
          forall q | 0 <= q < n ensures -1 <= init[q] <= 1 { assert init[q] == vs[q]; }
        }
        var p :| 0 <= p < n && MaxOf(init) == init[p];
        if MaxOf(vs) != vs[n] {
          assert MaxOf(vs) == vs[p];
        }
      }
    }
  }

  /** Extending the prefix by one entry folds that entry in with one `min` or `max`. */
  lemma FoldStep(vs: seq<int>, i: nat)
    requires i < |vs|
    ensures MinOf(vs[..i + 1]) == Min(MinOf(vs[..i]), vs[i])
    ensures MaxOf(vs[..i + 1]) == Max(MaxOf(vs[..i]), vs[i])
  {
    assert vs[..i + 1][..i] == vs[..i];
  }

  /**
   * `prefix` agrees with `vs` on its first |prefix| entries, stated entry by
   * entry from the last one down. It means `prefix <= vs`; the search loops
   * use this recursive form instead of the built-in one because the
   * built-in test is a quantifier over all entries, which makes the solver
   * expand the game-tree value of every score it relates and makes
   * `Engine.Minimax` much more expensive to verify.
   */
  predicate PrefixOf(prefix: seq<int>, vs: seq<int>)
    decreases |prefix|
  {
    |prefix| <= |vs| &&
    (prefix == [] || (PrefixOf(prefix[..|prefix| - 1], vs) && prefix[|prefix| - 1] == vs[|prefix| - 1]))
  }

  /** Appending the next entry of `vs` keeps a prefix a prefix. */
  lemma PrefixOfStep(prefix: seq<int>, vs: seq<int>, v: int)
    requires PrefixOf(prefix, vs) && |prefix| < |vs| && vs[|prefix|] == v
    ensures PrefixOf(prefix + [v], vs)
  {
    assert (prefix + [v])[..|prefix|] == prefix;
  }

  /** A prefix agrees with `vs` entry by entry: it is a prefix in the built-in sense. */
  lemma {:induction false} PrefixOfSpec(prefix: seq<int>, vs: seq<int>)
    requires PrefixOf(prefix, vs)
    ensures forall j | 0 <= j < |prefix| :: prefix[j] == vs[j]
    ensures prefix <= vs
  {
    if prefix != [] {
      var n := |prefix| - 1;
      PrefixOfSpec(prefix[..n], vs);
      assert forall j | 0 <= j < n :: prefix[j] == prefix[..n][j];
    }
  }

  /** A prefix as long as `vs` is `vs`. */
  lemma PrefixOfWhole(prefix: seq<int>, vs: seq<int>)
    requires PrefixOf(prefix, vs) && |prefix| == |vs|
    ensures prefix == vs
  {
    PrefixOfSpec(prefix, vs);
  }

  // ---------------------------------------------------------------------
  // Minimax values

  /** Every move of `ms` addresses a free cell. */
  predicate AllFree(b: Board, ms: seq<Move>)
  {
    forall p | 0 <= p < |ms| :: Free(b, ms[p])
  }

  /**
   * The value of a board for the minimizing side (O): the utility of a
   * terminal board, else the least `MaxVal` over the boards the legal moves
   * lead to.
   */
  function MinVal(b: Board): (v: int)
    requires Playable(b)
    ensures -1 <= v <= 1
    decreases Count(b, Empty), 1
  {
    if IsTerminal(b) then Utility(b)
    else
      TerminalSpec(b);
      MinOfSpec(ChildMaxVals(b, EmptyCells(b)));
      MinOf(ChildMaxVals(b, EmptyCells(b)))
  }

  /** The value of a board for the maximizing side (X). */
  function MaxVal(b: Board): (v: int)
    requires Playable(b)
    ensures -1 <= v <= 1
    decreases Count(b, Empty), 1
  {
    if IsTerminal(b) then Utility(b)
    else
      TerminalSpec(b);
      MaxOfSpec(ChildMinVals(b, EmptyCells(b)));
      MaxOf(ChildMinVals(b, EmptyCells(b)))
  }

  /** The `MaxVal` of the board each move of `ms` leads to, in the order of `ms`. */
  function ChildMaxVals(b: Board, ms: seq<Move>): (vs: seq<int>)
    requires Playable(b) && AllFree(b, ms)
    ensures |vs| == |ms| && InUnitRange(vs)
    decreases Count(b, Empty), 0
  {
    seq(|ms|, p requires 0 <= p < |ms| => MaxVal(Place(b, ms[p])))
  }

  /** Entry p of the child `MaxVal`s belongs to move p. */
  lemma ChildMaxValsAt(b: Board, ms: seq<Move>, p: nat)
    requires Playable(b) && AllFree(b, ms) && p < |ms|
    ensures ChildMaxVals(b, ms)[p] == MaxVal(Place(b, ms[p]))
  {
  }

  /** The `MinVal` of the board each move of `ms` leads to, in the order of `ms`. */
  function ChildMinVals(b: Board, ms: seq<Move>): (vs: seq<int>)
    requires Playable(b) && AllFree(b, ms)
    ensures |vs| == |ms| && InUnitRange(vs)
    decreases Count(b, Empty), 0
  {
    seq(|ms|, p requires 0 <= p < |ms| => MinVal(Place(b, ms[p])))
  }

  /** Entry p of the child `MinVal`s belongs to move p. */
  lemma ChildMinValsAt(b: Board, ms: seq<Move>, p: nat)
    requires Playable(b) && AllFree(b, ms) && p < |ms|
    ensures ChildMinVals(b, ms)[p] == MinVal(Place(b, ms[p]))
  {
  }

  /**
   * On a terminal board the value is its utility; otherwise it is the
   * least `MaxVal` reachable by one legal move.
   */
  lemma MinValSpec(b: Board)
    requires Playable(b)
    ensures IsTerminal(b) ==> MinVal(b) == Utility(b)
    ensures !IsTerminal(b) ==>
              (forall m | m in EmptyCells(b) :: MinVal(b) <= MaxVal(Place(b, m))) &&
              (exists m :: m in EmptyCells(b) && MinVal(b) == MaxVal(Place(b, m)))
  {
    if !IsTerminal(b) {
      TerminalSpec(b);
      var acts := EmptyCells(b);
      var vs := ChildMaxVals(b, acts);
      MinOfSpec(vs);
      forall m | m in acts ensures MinVal(b) <= MaxVal(Place(b, m)) {
        var p :| 0 <= p < |acts| && acts[p] == m;
        ChildMaxValsAt(b, acts, p);
      }
      var p :| 0 <= p < |vs| && MinOf(vs) == vs[p];
      ChildMaxValsAt(b, acts, p);
      assert acts[p] in acts;
    }
  }

  /** On a terminal board the value is its utility; otherwise the greatest reachable `MinVal`. */
  lemma MaxValSpec(b: Board)
    requires Playable(b)
    ensures IsTerminal(b) ==> MaxVal(b) == Utility(b)
    ensures !IsTerminal(b) ==>
              (forall m | m in EmptyCells(b) :: MinVal(Place(b, m)) <= MaxVal(b)) &&
              (exists m :: m in EmptyCells(b) && MaxVal(b) == MinVal(Place(b, m)))
  {
    if !IsTerminal(b) {
      TerminalSpec(b);
      var acts := EmptyCells(b);
      var vs := ChildMinVals(b, acts);
      MaxOfSpec(vs);
      forall m | m in acts ensures MinVal(Place(b, m)) <= MaxVal(b) {
        var p :| 0 <= p < |acts| && acts[p] == m;
        ChildMinValsAt(b, acts, p);
      }
      var p :| 0 <= p < |vs| && MaxOf(vs) == vs[p];
      ChildMinValsAt(b, acts, p);
      assert acts[p] in acts;
    }
  }

  // ---------------------------------------------------------------------
  // The move minimax selects

  /**
   * What `minimax` compares for each legal move, in row-major order: X, the
   * maximizer, looks at the `MinVal` of the board the move leads to, O at
   * its `MaxVal`.
   */
  function Scores(b: Board): (vs: seq<int>)
    requires Playable(b)
    ensures |vs| == |EmptyCells(b)| && InUnitRange(vs)
  {
    if Turn(b) == Ok(X) then ChildMinVals(b, EmptyCells(b)) else ChildMaxVals(b, EmptyCells(b))
  }

  /** `v` is strictly preferred to `w`: larger when maximizing, smaller otherwise. */
  predicate Better(maximize: bool, v: int, w: int)
  {
    if maximize then v > w else v < w
  }

  /**
   * Position k of `vs` is the first best one: no entry is strictly
   * preferred to it, and it is strictly preferred to every earlier entry.
   */
  predicate FirstBestIn(vs: seq<int>, k: nat, maximize: bool)
  {
    k < |vs| &&
    (forall j | 0 <= j < |vs| :: !Better(maximize, vs[j], vs[k])) &&
    (forall j | 0 <= j < k :: Better(maximize, vs[k], vs[j]))
  }

  /** Legal move number k is the first best one for the side to move. */
  predicate FirstBest(b: Board, k: nat)
    requires Playable(b)
  {
    FirstBestIn(Scores(b), k, Turn(b) == Ok(X))
  }

  /**
   * One step of the selection loop: a strictly better value becomes the new
   * first best position, any other value leaves it where it was.
   */
  lemma FirstBestStep(vs: seq<int>, k: nat, v: int, maximize: bool)
    requires vs == [] || FirstBestIn(vs, k, maximize)
    ensures vs == [] || Better(maximize, v, vs[k]) ==> FirstBestIn(vs + [v], |vs|, maximize)
    ensures vs != [] && !Better(maximize, v, vs[k]) ==> FirstBestIn(vs + [v], k, maximize)
  {
  }

  /**
   * The first best position of the scores, however obtained, is the first
   * best move. Kept as a lemma so that `Engine.Minimax` does not unfold
   * `Scores` and `FirstBest` in its own proof context, where they make it
   * markedly more expensive to verify.
   */
  lemma FirstBestOfScores(b: Board, vs: seq<int>, k: nat)
    requires Playable(b) && vs == Scores(b) && FirstBestIn(vs, k, Turn(b) == Ok(X))
    ensures FirstBest(b, k)
  {
  }

  /** A position after the first best one is not first best: it is not preferred to it. */
  lemma LaterNotFirstBest(vs: seq<int>, maximize: bool, k: nat, j: nat)
    requires FirstBestIn(vs, k, maximize) && k < j
    ensures !FirstBestIn(vs, j, maximize)
  {
    if j < |vs| {
      assert !Better(maximize, vs[j], vs[k]);
    }
  }

  /** At most one position is the first best: the selection is deterministic. */
  lemma FirstBestUnique(vs: seq<int>, maximize: bool, k1: nat, k2: nat)
    requires FirstBestIn(vs, k1, maximize) && FirstBestIn(vs, k2, maximize)
    ensures k1 == k2
  {
    if k1 < k2 {
      LaterNotFirstBest(vs, maximize, k1, k2);
      assert false;
    } else if k2 < k1 {
      LaterNotFirstBest(vs, maximize, k2, k1);
      assert false;
    }
  }

  /** The first best entry is the maximum (when maximizing) or the minimum of the list. */
  lemma FirstBestIsExtreme(vs: seq<int>, maximize: bool, k: nat)
    requires FirstBestIn(vs, k, maximize) && InUnitRange(vs)
    ensures maximize ==> vs[k] == MaxOf(vs)
    ensures !maximize ==> vs[k] == MinOf(vs)
  {
    MaxOfSpec(vs);
    MinOfSpec(vs);
    if maximize {
      var p :| 0 <= p < |vs| && MaxOf(vs) == vs[p];
      assert !Better(maximize, vs[p], vs[k]);
    } else {
      var p :| 0 <= p < |vs| && MinOf(vs) == vs[p];
      assert !Better(maximize, vs[p], vs[k]);
    }
  }

  /**
   * On a non-terminal board the first best move has the board's minimax
   * value for the mover: `MaxVal` when X moves, `MinVal` when O moves.
   */
  lemma FirstBestValue(b: Board, k: nat)
    requires Playable(b) && !IsTerminal(b) && FirstBest(b, k)
    ensures k < |EmptyCells(b)|
    ensures Turn(b) == Ok(X) ==> MinVal(Place(b, EmptyCells(b)[k])) == MaxVal(b)
    ensures Turn(b) == Ok(O) ==> MaxVal(Place(b, EmptyCells(b)[k])) == MinVal(b)
  {
    var acts := EmptyCells(b);
    FirstBestIsExtreme(Scores(b), Turn(b) == Ok(X), k);
    ChildMinValsAt(b, acts, k);
    ChildMaxValsAt(b, acts, k);
    TurnByCounts(b);
  }
}
