/** The two recursive evaluators `movMinMaxSensePoda` (plain minimax) and `movMinMaxPoda`
    (alpha-beta). A node is a board, the column of the move that produced it, the remaining
    depth and the side to move (`mov == 1`: the player maximises; anything else: the
    opponent minimises). The player's colour is a parameter.

    Each evaluator returns the node's value together with the number of leaves it scored
    with the heuristic, which is how much the player's node counter grows.

    The sibling loops over columns 0..7 are written as recursive functions over the column
    index, with the running best value as accumulator.
 */
module Search {
  import opened Board
  import opened Heuristic

  /** The value of a won position (and, negated, of a lost one). */
  const Win: int := 1000000
  /** `Integer.MIN_VALUE`, the initial running maximum and the initial alpha. */
  const IntMin: int := -0x8000_0000
  /** `Integer.MAX_VALUE`, the initial running minimum and the initial beta. */
  const IntMax: int := 0x7fff_ffff

  /** The value of a node and the number of heuristic evaluations made to obtain it. */
  datatype Eval = Eval(value: int, leaves: nat)

  /** `Math.max` */
  function Max(x: int, y: int): (m: int)
    ensures m >= x && m >= y && (m == x || m == y)
  {
    if x >= y then x else y
  }

  /** `Math.min` */
  function Min(x: int, y: int): (m: int)
    ensures m <= x && m <= y && (m == x || m == y)
  {
    if x <= y then x else y
  }

  /** A value a node can take: a win or loss sentinel or a heuristic score in between. */
  predicate InRange(v: int) {
    -Win <= v <= Win
  }

  /** The value of a running maximum: still at its start `IntMin`, or a node value. */
  predicate MaxAccumulator(v: int) {
    v == IntMin || InRange(v)
  }

  /** The value of a running minimum: still at its start `IntMax`, or a node value. */
  predicate MinAccumulator(v: int) {
    v == IntMax || InRange(v)
  }

  /** The node is decided without looking at any child: a win for either side through the
      last move, the depth budget used up, or a full board. */
  predicate IsLeaf<B>(rules: Rules<B>, color: int, b: B, last: int, depth: int) {
    rules.wins(b, last, color) || rules.wins(b, last, Opponent(color)) || depth == 0 || !rules.canMove(b)
  }

  /** The value of a leaf, in the order the player tests the three cases. */
  function LeafEval<B>(rules: Rules<B>, color: int, b: B, last: int): (e: Eval)
    ensures InRange(e.value)
    ensures e.leaves <= 1
    ensures e.leaves == 1 <==> !rules.wins(b, last, color) && !rules.wins(b, last, Opponent(color))
  {
    if rules.wins(b, last, color) then Eval(Win, 0)
    else if rules.wins(b, last, Opponent(color)) then Eval(-Win, 0)
    else Eval(Score(rules, b, color), 1)
  }

  // ---------------------------------------------------------------------------------------
  // Plain minimax, `movMinMaxSensePoda`

  /** The unpruned value of a node. */
  function Minimax<B(!new)>(rules: Rules<B>, color: int, b: B, last: int, depth: int, mov: int): Eval
    requires Valid(rules)
    decreases rules.measure(b), 1
  {
    if IsLeaf(rules, color, b, last, depth) then LeafEval(rules, color, b, last)
    else if mov == 1 then MaxChildren(rules, color, b, depth, 0, Eval(IntMin, 0))
    else MinChildren(rules, color, b, depth, 0, Eval(IntMax, 0))
  }

  /** The player's loop over columns `i..7`: the running maximum `acc` combined with every
      legal child, each child searched with the player's piece dropped and the opponent to
      move. */
  function MaxChildren<B(!new)>(rules: Rules<B>, color: int, b: B, depth: int, i: int, acc: Eval): Eval
    requires Valid(rules) && 0 <= i <= Size
    decreases rules.measure(b), 0, Size - i
  {
    if i == Size then acc
    else if rules.legal(b, i) then
      var child := Minimax(rules, color, rules.play(b, i, color), i, depth - 1, 0);
      MaxChildren(rules, color, b, depth, i + 1, Eval(Max(acc.value, child.value), acc.leaves + child.leaves))
    else MaxChildren(rules, color, b, depth, i + 1, acc)
  }

  /** The opponent's loop over columns `i..7`: the running minimum `acc` combined with every
      legal child, each child searched with the opponent's piece dropped and the player to
      move. */
  function MinChildren<B(!new)>(rules: Rules<B>, color: int, b: B, depth: int, i: int, acc: Eval): Eval
    requires Valid(rules) && 0 <= i <= Size
    decreases rules.measure(b), 0, Size - i
  {
    if i == Size then acc
    else if rules.legal(b, i) then
      var child := Minimax(rules, color, rules.play(b, i, Opponent(color)), i, depth - 1, 1);
      MinChildren(rules, color, b, depth, i + 1, Eval(Min(acc.value, child.value), acc.leaves + child.leaves))
    else MinChildren(rules, color, b, depth, i + 1, acc)
  }

  // ---------------------------------------------------------------------------------------
  // Alpha-beta, `movMinMaxPoda`

  /** The pruned value of a node searched with the window `(alpha, beta)`. */
  function AlphaBeta<B(!new)>(rules: Rules<B>, color: int, b: B, last: int, depth: int,
                              alpha: int, beta: int, mov: int): Eval
    requires Valid(rules)
    decreases rules.measure(b), 1
  {
    if IsLeaf(rules, color, b, last, depth) then LeafEval(rules, color, b, last)
    else if mov == 1 then MaxPruned(rules, color, b, depth, 0, Eval(IntMin, 0), alpha, beta)
    else MinPruned(rules, color, b, depth, 0, Eval(IntMax, 0), alpha, beta)
  }

  /** The player's pruned loop from column `i`: after each legal child alpha is raised to
      the running maximum, and the remaining columns are skipped once alpha reaches beta. */
  function MaxPruned<B(!new)>(rules: Rules<B>, color: int, b: B, depth: int, i: int, acc: Eval,
                              alpha: int, beta: int): Eval
    requires Valid(rules) && 0 <= i <= Size
    decreases rules.measure(b), 0, Size - i
  {
    if i == Size then acc
    else if rules.legal(b, i) then
      var child := AlphaBeta(rules, color, rules.play(b, i, color), i, depth - 1, alpha, beta, 0);
      var best := Eval(Max(acc.value, child.value), acc.leaves + child.leaves);
      var alpha' := Max(alpha, best.value);
      if alpha' >= beta then best
      else MaxPruned(rules, color, b, depth, i + 1, best, alpha', beta)
    else MaxPruned(rules, color, b, depth, i + 1, acc, alpha, beta)
  }

  /** The opponent's pruned loop from column `i`: after each legal child beta is lowered to
      the running minimum, and the remaining columns are skipped once alpha reaches beta. */
  function MinPruned<B(!new)>(rules: Rules<B>, color: int, b: B, depth: int, i: int, acc: Eval,
                              alpha: int, beta: int): Eval
    requires Valid(rules) && 0 <= i <= Size
    decreases rules.measure(b), 0, Size - i
  {
    if i == Size then acc
    else if rules.legal(b, i) then
      var child := AlphaBeta(rules, color, rules.play(b, i, Opponent(color)), i, depth - 1, alpha, beta, 1);
      var worst := Eval(Min(acc.value, child.value), acc.leaves + child.leaves);
      var beta' := Min(beta, worst.value);
      if alpha >= beta' then worst
      else MinPruned(rules, color, b, depth, i + 1, worst, alpha, beta')
    else MinPruned(rules, color, b, depth, i + 1, acc, alpha, beta)
  }
}
