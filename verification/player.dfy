/** The player: the two root selectors `minimaxSensePoda` and `minimaxPoda`, and the entry
    point `moviment` that dispatches between them and accumulates the node counter.
 */
module Player {
  import opened Board
  import opened Heuristic
  import opened Search
  import opened SearchProofs

  /** The value the root gives column `c`: the player's piece dropped there, searched with
      the opponent to move and one ply less. */
  function RootValue<B(!new)>(rules: Rules<B>, color: int, b: B, depth: int, c: int): int
    requires Valid(rules) && IsColumn(c) && rules.legal(b, c)
  {
    Minimax(rules, color, rules.play(b, c, color), c, depth - 1, 0).value
  }

  /** `col` is the column the root must return: the lowest legal column among those of
      largest value, or 0 when no column is legal. */
  ghost predicate IsRootChoice<B(!new)>(rules: Rules<B>, color: int, b: B, depth: int, col: int)
    requires Valid(rules)
  {
    if HasMoveIn(rules, b, 0, Size) then
      && IsColumn(col) && rules.legal(b, col)
      && (forall c :: IsColumn(c) && rules.legal(b, c) ==>
            RootValue(rules, color, b, depth, c) <= RootValue(rules, color, b, depth, col))
      && (forall c :: 0 <= c < col && rules.legal(b, c) ==>
            RootValue(rules, color, b, depth, c) < RootValue(rules, color, b, depth, col))
    else
      col == 0
  }

  /** The heuristic evaluations the root makes over the legal columns below `n`, with the
      unpruned search, or with the pruned one and the full window. */
  ghost function RootLeaves<B(!new)>(rules: Rules<B>, color: int, b: B, depth: int, pruned: bool, n: int): nat
    requires Valid(rules) && 0 <= n <= Size
  {
    if n == 0 then 0
    else if !rules.legal(b, n - 1) then RootLeaves(rules, color, b, depth, pruned, n - 1)
    else
      var child := rules.play(b, n - 1, color);
      RootLeaves(rules, color, b, depth, pruned, n - 1) +
        (if pruned then AlphaBeta(rules, color, child, n - 1, depth - 1, IntMin, IntMax, 0).leaves
         else Minimax(rules, color, child, n - 1, depth - 1, 0).leaves)
  }

  /** The state of the root loop after columns `0..i-1`: `col` and `best` are the column
      and value the root would return if the grid ended at column `i`. */
  ghost predicate BestSoFar<B(!new)>(rules: Rules<B>, color: int, b: B, depth: int, i: int, col: int, best: int)
    requires Valid(rules) && 0 <= i <= Size
  {
    && IsColumn(col)
    && (!HasMoveIn(rules, b, 0, i) ==> col == 0 && best == IntMin)
    && (HasMoveIn(rules, b, 0, i) ==>
          col < i && rules.legal(b, col) && best == RootValue(rules, color, b, depth, col))
    && (forall c :: 0 <= c < i && rules.legal(b, c) ==> RootValue(rules, color, b, depth, c) <= best)
    && (forall c :: 0 <= c < col && rules.legal(b, c) ==> RootValue(rules, color, b, depth, c) < best)
  }

  /** One turn of the root loop: a legal column replaces the best so far exactly when its
      value is strictly greater, an illegal column changes nothing. */
  lemma RootStep<B(!new)>(rules: Rules<B>, color: int, b: B, depth: int, i: int, col: int, best: int)
    requires Valid(rules) && 0 <= i < Size && BestSoFar(rules, color, b, depth, i, col, best)
    ensures !rules.legal(b, i) ==> BestSoFar(rules, color, b, depth, i + 1, col, best)
    ensures rules.legal(b, i) ==>
      var v := RootValue(rules, color, b, depth, i);
      && (v > best ==> BestSoFar(rules, color, b, depth, i + 1, i, v))
      && (v <= best ==> BestSoFar(rules, color, b, depth, i + 1, col, best))
  {
    if rules.legal(b, i) {
      MinimaxInRange(rules, color, rules.play(b, i, color), i, depth - 1, 0);
    }
  }

  /** After the last column the best so far is the root's choice. */
  lemma RootDone<B(!new)>(rules: Rules<B>, color: int, b: B, depth: int, col: int, best: int)
    requires Valid(rules) && BestSoFar(rules, color, b, depth, Size, col, best)
    ensures IsRootChoice(rules, color, b, depth, col)
  {
  }

  /** `minimaxSensePoda`: every legal column, in increasing order, is searched without
      pruning, and a column replaces the best so far only when its value is strictly greater. */
  method SearchRoot<B(!new)>(rules: Rules<B>, color: int, b: B, depth: int) returns (col: int, evals: nat)
    requires Valid(rules)
    ensures IsRootChoice(rules, color, b, depth, col)
    ensures evals == RootLeaves(rules, color, b, depth, false, Size)
  {
    var best := IntMin;
    col := 0;
    evals := 0;
    for i := 0 to Size
      invariant BestSoFar(rules, color, b, depth, i, col, best)
      invariant evals == RootLeaves(rules, color, b, depth, false, i)
    {
      RootStep(rules, color, b, depth, i, col, best);
      if rules.legal(b, i) {
        var e := Minimax(rules, color, rules.play(b, i, color), i, depth - 1, 0);
        evals := evals + e.leaves;
        if e.value > best {
          best := e.value;
          col := i;
        }
      }
    }
    RootDone(rules, color, b, depth, col, best);
  }

  /** `minimaxPoda`: the same loop with the pruned search. Alpha and beta are set once to the
      full window and never changed at the root, so every column is searched with the full
      window and gets its exact value. */
  method SearchRootPruned<B(!new)>(rules: Rules<B>, color: int, b: B, depth: int) returns (col: int, evals: nat)
    requires Valid(rules)
    ensures IsRootChoice(rules, color, b, depth, col)
    ensures evals == RootLeaves(rules, color, b, depth, true, Size)
  {
    var best := IntMin;
    col := 0;
    evals := 0;
    var alpha := IntMin;
    var beta := IntMax;
    for i := 0 to Size
      invariant BestSoFar(rules, color, b, depth, i, col, best)
      invariant evals == RootLeaves(rules, color, b, depth, true, i)
    {
      RootStep(rules, color, b, depth, i, col, best);
      if rules.legal(b, i) {
        var e := AlphaBeta(rules, color, rules.play(b, i, color), i, depth - 1, alpha, beta, 0);
        FullWindowExact(rules, color, rules.play(b, i, color), i, depth - 1, 0);
        evals := evals + e.leaves;
        if e.value > best {
          best := e.value;
          col := i;
        }
      }
    }
    RootDone(rules, color, b, depth, col, best);
  }

  /** The root's choice is determined by the board, the colour and the depth alone, so the
      pruned and the unpruned selector return the same column. */
  lemma RootChoiceUnique<B(!new)>(rules: Rules<B>, color: int, b: B, depth: int, c1: int, c2: int)
    requires Valid(rules)
    requires IsRootChoice(rules, color, b, depth, c1) && IsRootChoice(rules, color, b, depth, c2)
    ensures c1 == c2
  {
  }

  /** A column where the player's piece completes a line is worth the win sentinel, which no
      other column exceeds: the root returns that column or a lower one that also wins. */
  lemma ImmediateWinChosen<B(!new)>(rules: Rules<B>, color: int, b: B, depth: int, c: int, col: int)
    requires Valid(rules) && IsColumn(c) && rules.legal(b, c) && rules.wins(rules.play(b, c, color), c, color)
    requires IsRootChoice(rules, color, b, depth, col)
    ensures col <= c && rules.legal(b, col)
    ensures RootValue(rules, color, b, depth, col) == Win
  {
    assert RootValue(rules, color, b, depth, c) == Win;
    MinimaxInRange(rules, color, rules.play(b, col, color), col, depth - 1, 0);
  }

  /** With depth 1 each column is judged on the board right after the player's drop: a line
      of the player's wins, a line of the opponent's loses, anything else is scored by the
      heuristic. */
  lemma OnePly<B(!new)>(rules: Rules<B>, color: int, b: B, c: int)
    requires Valid(rules) && IsColumn(c) && rules.legal(b, c)
    ensures var after := rules.play(b, c, color);
      RootValue(rules, color, b, 1, c) ==
        if rules.wins(after, c, color) then Win
        else if rules.wins(after, c, Opponent(color)) then -Win
        else Score(rules, after, color)
  {
  }

  /** A configured depth of 0 gives the recursion a depth of -1, which never reaches the
      `depth == 0` test: every root value is the same as for any other depth at or below 0,
      i.e. the search runs until a line is made or the board is full. */
  lemma RootDepthZeroUnbounded<B(!new)>(rules: Rules<B>, color: int, b: B, depth: int, c: int)
    requires Valid(rules) && IsColumn(c) && rules.legal(b, c) && depth <= 0
    ensures RootValue(rules, color, b, depth, c) == RootValue(rules, color, b, 0, c)
  {
    NegativeDepthUnbounded(rules, color, rules.play(b, c, color), c, depth - 1, -1, 0);
  }

  /** The pruned root makes at most as many heuristic evaluations as the unpruned one. */
  lemma {:induction false} PrunedRootLeavesAtMost<B(!new)>(rules: Rules<B>, color: int, b: B, depth: int, n: int)
    requires Valid(rules) && 0 <= n <= Size
    ensures RootLeaves(rules, color, b, depth, true, n) <= RootLeaves(rules, color, b, depth, false, n)
  {
    if n > 0 {
      PrunedRootLeavesAtMost(rules, color, b, depth, n - 1);
      if rules.legal(b, n - 1) {
        PrunedLeavesAtMost(rules, color, rules.play(b, n - 1, color), n - 1, depth - 1, IntMin, IntMax, 0);
      }
    }
  }

  // ---------------------------------------------------------------------------------------
  // The player object

  /** The configuration fixed at construction and the cumulative node counter
      `contadorNodes`. The colour is not stored: it is an argument of every decision. */
  datatype Player = Player(depth: int, pruning: bool, nodes: nat)

  /** The constructor: depth and pruning as configured, and a counter that starts at 0, so
      that after any sequence of moves it holds the evaluations of all of them. */
  function NewPlayer(depth: int, pruning: bool): (p: Player)
    ensures p.depth == depth && p.pruning == pruning && p.nodes == 0
  {
    Player(depth, pruning, 0)
  }

  /** `moviment`: pick the column with the configured search and add the heuristic
      evaluations it made to the counter, which is never reset. */
  method ChooseMove<B(!new)>(p: Player, rules: Rules<B>, b: B, color: int) returns (col: int, p': Player)
    requires Valid(rules)
    ensures IsRootChoice(rules, color, b, p.depth, col)
    ensures p'.depth == p.depth && p'.pruning == p.pruning
    ensures p'.nodes == p.nodes + RootLeaves(rules, color, b, p.depth, p.pruning, Size)
    ensures p'.nodes >= p.nodes
  {
    var evals: nat;
    if p.pruning {
      col, evals := SearchRootPruned(rules, color, b, p.depth);
    } else {
      col, evals := SearchRoot(rules, color, b, p.depth);
    }
    p' := p.(nodes := p.nodes + evals);
  }
}
